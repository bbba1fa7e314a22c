// The text side of an id Tech 2 configuration: splitting into lines and tokens,
// loading, and printing.
module ConfigText {
  import opened ConfigStore

  const CRLF: string := "\r\n"
  const LF: string := "\n"

  // ----- lines -----

  predicate IsLineBreak(separator: string) {
    separator == "\r\n" || separator == "\n"
  }

  predicate SeparatorAt(text: string, separator: string, p: nat) {
    p + |separator| <= |text| && text[p..p + |separator|] == separator
  }

  // The first place at or after `from` where the separator occurs; the length
  // of the text if there is none.
  function NextSeparator(text: string, separator: string, from: nat): (r: nat)
    requires from <= |text| && |separator| > 0
    ensures from <= r <= |text|
    ensures r < |text| ==> SeparatorAt(text, separator, r)
    ensures forall p :: from <= p < r ==> !SeparatorAt(text, separator, p)
    decreases |text| - from
  {
    if from == |text| || SeparatorAt(text, separator, from) then from
    else NextSeparator(text, separator, from + 1)
  }

  // The pieces of `text` from `start` on, when a separator counts from `from` on.
  function Pieces(text: string, separator: string, start: nat, from: nat): seq<string>
    requires start <= from <= |text| && |separator| > 0
    decreases |text| - from
  {
    var p := NextSeparator(text, separator, from);
    if p == |text| then [text[start..]]
    else [text[start..p]] + Pieces(text, separator, p + |separator|, p + |separator|)
  }

  // The lines of a text. A separator at its very beginning is not seen.
  function Lines(text: string, separator: string): seq<string>
    requires 0 < |separator| <= |text|
  {
    Pieces(text, separator, 0, 1)
  }

  function Later(a: nat, b: nat): nat {
    if a < b then b else a
  }

  lemma PieceEnds(text: string, separator: string, start: nat, p: nat, before: seq<string>)
    requires start <= p && |separator| > 0 && SeparatorAt(text, separator, p)
    ensures before + Pieces(text, separator, start, p)
         == before + [text[start..p]] + Pieces(text, separator, p + |separator|, p + |separator|)
  {
  }

  lemma PieceGoesOn(text: string, separator: string, start: nat, from: nat)
    requires start <= from < |text| && |separator| > 0 && !SeparatorAt(text, separator, from)
    ensures Pieces(text, separator, start, from) == Pieces(text, separator, start, from + 1)
  {
  }

  lemma {:induction false} LastPiece(text: string, separator: string, start: nat, from: nat)
    requires start <= from <= |text| && |separator| > 0 && from + |separator| > |text|
    ensures Pieces(text, separator, start, from) == [text[start..]]
  {
    assert forall p :: from <= p ==> !SeparatorAt(text, separator, p);
  }

  // Inside a separator no other one begins.
  lemma NoOverlap(text: string, separator: string, start: nat, p: nat)
    requires IsLineBreak(separator) && |separator| <= start && SeparatorAt(text, separator, start - |separator|)
    requires start - |separator| < p < start
    ensures !SeparatorAt(text, separator, p)
  {
    assert separator == CRLF && p == start - 1;
    assert text[start - 2..start][1] == text[p];
    assert p + 2 <= |text| ==> text[p..p + 2][0] == text[p];
  }

  lemma StartOfLines(text: string, separator: string)
    requires 0 < |separator| <= |text|
    ensures Lines(text, separator) == [] + Pieces(text, separator, 0, Later(0, 1))
  {
  }

  method SplitIntoLines(line: string, separator: string) returns (segments: seq<string>)
    requires IsLineBreak(separator) && |separator| <= |line|
    ensures segments == Lines(line, separator)
  {
    hide Pieces, Lines, SeparatorAt;
    segments := [];
    StartOfLines(line, separator);
    var start: nat := 0;
    var i: nat := 0;
    var n, m := |line|, |separator|;
    while i < n
      invariant i <= n
      invariant start == 0 || (m <= start <= i + m && start <= n && SeparatorAt(line, separator, start - m))
      invariant i <= n - m ==> Lines(line, separator) == segments + Pieces(line, separator, start, Later(start, i + 1))
      invariant i > n - m ==> Lines(line, separator) == segments
    {
      if i < n - m && SeparatorAt(line, separator, i + 1) {
        if i + 1 < start {
          NoOverlap(line, separator, start, i + 1);
        }
        PieceEnds(line, separator, start, i + 1, segments);
        segments := segments + [line[start..i + 1]];
        start := i + m + 1;
      } else if i == n - m {
        LastPiece(line, separator, start, Later(start, i + 1));
        segments := segments + [line[start..]];
      } else if i < n - m && start <= i + 1 {
        PieceGoesOn(line, separator, start, i + 1);
      }
      i := i + 1;
    }
  }

  // ----- tokens -----

  function NonEmpty(text: string): seq<string> {
    if text == "" then [] else [text]
  }

  // `substr`: at most `count` characters from `from`.
  function Substring(text: string, from: nat, count: nat): string
    requires from <= |text|
  {
    if from + count <= |text| then text[from..from + count] else text[from..]
  }

  predicate IsBlank(c: char) {
    c == ' ' || c == '\t'
  }

  // The tokens the scanner still produces at position `i`, when the current token
  // starts at `start` and `quote` is where an open quote stands.
  function Tokens(line: string, i: nat, start: nat, quote: int): seq<string>
    requires i <= |line| && start <= i + 1 && start <= |line| && -1 <= quote < i
    decreases |line| - i
  {
    var n := |line|;
    if i == n then []
    else if quote >= 0 then
      if line[i] == '"' then
        NonEmpty(line[quote + 1..i])
        + Tokens(line, i + 1, if i < n - 1 && line[i + 1] == ' ' then i + 2 else i + 1, -1)
      else Tokens(line, i + 1, start, quote)
    else if line[i] == '"' then Tokens(line, i + 1, start, i)
    else if i < n - 1 && IsBlank(line[i + 1]) then
      NonEmpty(line[start..i + 1]) + Tokens(line, i + 1, i + 2, -1)
    else if i == n - 1 then NonEmpty(Substring(line, start, i))
    else Tokens(line, i + 1, start, -1)
  }

  // The tokens `before` and those still to come.
  function TokensAfter(before: seq<string>, line: string, i: nat, start: nat, quote: int): seq<string>
    requires i <= |line| && start <= i + 1 && start <= |line| && -1 <= quote < i
  {
    before + Tokens(line, i, start, quote)
  }

  // One step of the scanner.
  lemma TokensGrow(line: string, i: nat, start: nat, quote: int, before: seq<string>)
    requires i < |line| && start <= i + 1 && start <= |line| && -1 <= quote < i
    ensures var n := |line|;
            TokensAfter(before, line, i, start, quote)
            == (if quote >= 0 then
                  if line[i] == '"' then
                    var next := if i < n - 1 && line[i + 1] == ' ' then i + 2 else i + 1;
                    TokensAfter(before + NonEmpty(line[quote + 1..i]), line, i + 1, next, -1)
                  else TokensAfter(before, line, i + 1, start, quote)
                else if line[i] == '"' then TokensAfter(before, line, i + 1, start, i)
                else if i < n - 1 && IsBlank(line[i + 1]) then
                  TokensAfter(before + NonEmpty(line[start..i + 1]), line, i + 1, i + 2, -1)
                else if i == n - 1 then TokensAfter(before + NonEmpty(Substring(line, start, i)), line, n, start, -1)
                else TokensAfter(before, line, i + 1, start, -1))
  {
    hide NonEmpty, Substring;
  }

  lemma NoTokensAtTheEnd(line: string, start: nat, quote: int, before: seq<string>)
    requires start <= |line| && -1 <= quote < |line|
    ensures TokensAfter(before, line, |line|, start, quote) == before
  {
  }

  lemma TokensOfLine(line: string)
    ensures TokensAfter([], line, 0, 0, -1) == Tokens(line, 0, 0, -1)
  {
  }

  method SplitIntoSegments(line: string) returns (segments: seq<string>)
    ensures segments == Tokens(line, 0, 0, -1)
  {
    hide Tokens, TokensAfter, NonEmpty, Substring, IsBlank;
    TokensOfLine(line);
    segments := [];
    var firstQuote := -1;
    var start: nat := 0;
    var i: nat := 0;
    var n := |line|;
    while i < n
      invariant i <= n && start <= i + 1 && start <= n && -1 <= firstQuote < i
      invariant Tokens(line, 0, 0, -1) == TokensAfter(segments, line, i, start, firstQuote)
    {
      TokensGrow(line, i, start, firstQuote, segments);
      if firstQuote >= 0 {
        if line[i] == '"' {
          segments := segments + NonEmpty(line[firstQuote + 1..i]);
          firstQuote := -1;
          start := i + 1;
          if i < n - 1 && line[i + 1] == ' ' {
            start := start + 1;
          }
        }
      } else if line[i] == '"' {
        firstQuote := i;
      } else if i < n - 1 && IsBlank(line[i + 1]) {
        segments := segments + NonEmpty(line[start..i + 1]);
        start := i + 2;
      } else if i == n - 1 {
        segments := segments + NonEmpty(Substring(line, start, i));
      }
      i := i + 1;
    }
    NoTokensAtTheEnd(line, start, firstQuote, segments);
  }

  // ----- loading -----

  predicate IsAlpha(c: char) {
    'a' <= c <= 'z' || 'A' <= c <= 'Z'
  }

  // The characters the C locale calls digits, spaces or punctuation.
  predicate IsOtherAscii(c: char) {
    '0' <= c <= '9' || '\t' <= c <= '\r' || ' ' <= c <= '/' || ':' <= c <= '@' || '[' <= c <= '`' || '{' <= c <= '~'
  }

  // `is_ascii_text_config`. The counter is compared before the letter test only,
  // so a letter at index 8192 makes the text unacceptable.
  predicate IsAsciiTextConfig(text: string) {
    |text| > 0 && forall i :: 0 <= i < |text| ==> (i != 8192 && IsAlpha(text[i])) || IsOtherAscii(text[i])
  }

  // The entry a line stands for, if any.
  function ParseLine(line: string): seq<ConfigLine> {
    var tokens := Tokens(line, 0, 0, -1);
    var n := |tokens|;
    if n == 0 then []
    else if n == 1 then [ConfigLine(line, Many(tokens), One(""))]
    else [ConfigLine(line, Many(tokens[..n - 1]), One(tokens[n - 1]))]
  }

  function ParseLines(lines: seq<string>): seq<ConfigLine> {
    if |lines| == 0 then [] else ParseLines(lines[..|lines| - 1]) + ParseLine(lines[|lines| - 1])
  }

  // NoConfig: nothing to load. OverRead: the text is shorter than the separator
  // and the scan for it would run past the buffer.
  datatype LoadResult = NoConfig | OverRead | Loaded(entries: seq<ConfigLine>, endLine: string)

  function Load(text: string): LoadResult {
    if text == "" || !IsAsciiTextConfig(text) then NoConfig
    else if |text| < |CRLF| then OverRead
    else
      var lines := Lines(text, CRLF);
      var others := Lines(text, LF);
      var useOthers := |lines| == 1;
      var entries := ParseLines(if useOthers then others else lines);
      if entries == [] then NoConfig
      else Loaded(entries, if useOthers && |others| > 1 then LF else CRLF)
  }

  method LoadConfig(text: string) returns (r: LoadResult)
    ensures r == Load(text)
  {
    hide Lines, ParseLine;
    if text == "" || !IsAsciiTextConfig(text) {
      return NoConfig;
    }
    if |text| < |CRLF| {
      return OverRead;
    }
    var endLine := CRLF;
    var lines := SplitIntoLines(text, endLine);
    if |lines| == 1 {
      lines := SplitIntoLines(text, LF);
      if |lines| > 1 {
        endLine := LF;
      }
    }
    var entries: seq<ConfigLine> := [];
    for k := 0 to |lines|
      invariant entries == ParseLines(lines[..k])
    {
      assert lines[..k + 1][..k] == lines[..k];
      var entry := ReadLine(lines[k]);
      entries := entries + entry;
    }
    assert lines[..|lines|] == lines;
    r := if entries == [] then NoConfig else Loaded(entries, endLine);
  }

  // The body of the loading loop.
  method ReadLine(line: string) returns (entry: seq<ConfigLine>)
    ensures entry == ParseLine(line)
  {
    hide Tokens;
    var segments := SplitIntoSegments(line);
    if segments == [] {
      return [];
    }
    if |segments| == 1 {
      return [ConfigLine(line, Many(segments), One(""))];
    }
    var value := segments[|segments| - 1];
    segments := segments[..|segments| - 1];
    entry := [ConfigLine(line, Many(segments), One(value))];
  }

  // ----- printing -----

  function PrintSegment(segment: string): string {
    if segment == "" then ""
    else if ' ' in segment then "\"" + segment + "\" "
    else segment + " "
  }

  predicate ShouldQuote(value: string) {
    ' ' in value || ';' in value || !(|value| > 0 && value[0] == '+')
  }

  // Removing the last character of a line without a value needs one to be there.
  predicate Joinable(line: ConfigLine) {
    line.value.Empty() ==> line.key.At(0) != "" || line.key.At(1) != ""
  }

  function PrintLine(line: ConfigLine): string
    requires Joinable(line)
  {
    SegmentsEndInSpace(line.key.ToArray2().0);
    SegmentsEndInSpace(line.key.ToArray2().1);
    var segments := line.key.ToArray2();
    var key := PrintSegment(segments.0) + PrintSegment(segments.1);
    var value := line.value.At(0);
    if line.value.Empty() then key[..|key| - 1]
    else if ShouldQuote(value) then key + "\"" + value + "\""
    else key + value
  }

  method AppendSegment(line: string, segment: string) returns (result: string)
    ensures result == line + PrintSegment(segment)
  {
    result := line;
    if segment == "" {
      return;
    }
    if ' ' in segment {
      result := result + "\"";
    }
    result := result + segment;
    if ' ' in segment {
      result := result + "\"";
    }
    result := result + " ";
  }

  method JoinLine(line: ConfigLine) returns (result: string)
    requires Joinable(line)
    ensures result == PrintLine(line)
  {
    hide PrintLine, PrintSegment, ShouldQuote, Joinable;
    PrintedParts(line);
    var pair := line.key.ToArray2();
    result := AppendSegment("", pair.0);
    result := AppendSegment(result, pair.1);
    if !line.value.Empty() {
      var value := line.value.At(0);
      var quote := ShouldQuote(value);
      if quote {
        result := result + "\"";
      }
      result := result + value;
      if quote {
        result := result + "\"";
      }
    } else if result[|result| - 1] == ' ' {
      result := result[..|result| - 1];
    }
  }

  lemma PrintedParts(line: ConfigLine)
    requires Joinable(line)
    ensures var pair, value := line.key.ToArray2(), line.value.At(0);
            var key := "" + PrintSegment(pair.0) + PrintSegment(pair.1);
            if line.value.Empty() then |key| > 0 && key[|key| - 1] == ' ' && PrintLine(line) == key[..|key| - 1]
            else PrintLine(line) == if ShouldQuote(value) then key + "\"" + value + "\"" else key + value
  {
    hide PrintSegment, ShouldQuote;
    var pair := line.key.ToArray2();
    SegmentsEndInSpace(pair.0);
    SegmentsEndInSpace(pair.1);
    assert "" + PrintSegment(pair.0) == PrintSegment(pair.0);
  }

  lemma SegmentsEndInSpace(segment: string)
    ensures var printed := PrintSegment(segment);
            if segment == "" then printed == "" else |printed| > 0 && printed[|printed| - 1] == ' '
  {
  }

  predicate AllJoinable(entries: seq<ConfigLine>) {
    forall i :: 0 <= i < |entries| ==> Joinable(entries[i])
  }

  function PrintLines(entries: seq<ConfigLine>, endLine: string): string
    requires AllJoinable(entries)
  {
    if |entries| == 0 then ""
    else PrintLines(entries[..|entries| - 1], endLine) + PrintLine(entries[|entries| - 1]) + endLine
  }

  method SaveConfig(entries: seq<ConfigLine>, endLine: string) returns (text: string)
    requires AllJoinable(entries)
    ensures text == PrintLines(entries, endLine)
  {
    hide PrintLine;
    text := "";
    for k := 0 to |entries|
      invariant text == PrintLines(entries[..k], endLine)
    {
      assert entries[..k + 1][..k] == entries[..k];
      var line := JoinLine(entries[k]);
      text := text + line;
      text := text + endLine;
    }
    assert entries[..|entries|] == entries;
  }
}
