// Saving a configuration and loading it again.
module ConfigSaveLoad {
  import opened ConfigStore
  import opened ConfigText
  import opened ConfigRoundTrip

  // ----- one line -----

  // Text the format can carry at all: it has no escape for these characters.
  predicate Harmless(text: string) {
    forall c :: c in text ==> c != '"' && c != '\t' && c != '\r' && c != '\n'
  }

  predicate AllHarmless(texts: seq<string>) {
    forall i :: 0 <= i < |texts| ==> Harmless(texts[i])
  }

  predicate Plain(line: ConfigLine) {
    AllHarmless(line.key.Segments()) && AllHarmless(line.value.Segments())
  }

  // A single value under a key of one or two segments, none of them empty; an
  // empty value only under a one-segment key.
  predicate Printable(line: ConfigLine) {
    var key, value := line.key.Segments(), line.value.Segments();
    && |value| == 1
    && 1 <= |key| <= 2
    && (forall i :: 0 <= i < |key| ==> key[i] != "")
    && (value[0] == "" ==> |key| == 1)
  }

  predicate SameEntry(a: ConfigLine, b: ConfigLine) {
    a.key.Equals(b.key) && a.value.Equals(b.value)
  }

  function KeyWords(segment: string): seq<Word> {
    if segment == "" then [] else if ' ' in segment then [Quoted(segment)] else [Bare(segment)]
  }

  function ValueWord(value: string): Word {
    if ShouldQuote(value) then Quoted(value) else Bare(value)
  }

  // The words a line is printed as.
  function WordsOf(line: ConfigLine): seq<Word> {
    KeyWords(line.key.At(0)) + KeyWords(line.key.At(1))
      + (if line.value.Empty() then [] else [ValueWord(line.value.At(0))])
  }

  lemma SegmentIsHarmless(key: KeyType, i: nat)
    requires AllHarmless(key.Segments())
    ensures Harmless(key.At(i))
  {
  }

  lemma WordsAreClean(line: ConfigLine)
    requires Plain(line)
    ensures AllClean(WordsOf(line))
  {
    SegmentIsHarmless(line.key, 0);
    SegmentIsHarmless(line.key, 1);
    SegmentIsHarmless(line.value, 0);
    KeyWordsAreClean(line.key.At(0));
    KeyWordsAreClean(line.key.At(1));
    ValueWordIsClean(line.value.At(0));
  }

  lemma KeyWordsAreClean(segment: string)
    requires Harmless(segment)
    ensures AllClean(KeyWords(segment))
  {
  }

  lemma ValueWordIsClean(value: string)
    requires Harmless(value)
    ensures Clean(ValueWord(value))
  {
  }

  lemma RenderOne(a: Word)
    ensures Render([a]) == RenderWord(a)
  {
  }

  lemma RenderCons(a: Word, rest: seq<Word>)
    requires |rest| > 0
    ensures Render([a] + rest) == RenderWord(a) + " " + Render(rest)
  {
    assert ([a] + rest)[1..] == rest;
  }

  // A printed segment is its word and a space.
  lemma PrintedSegment(segment: string)
    ensures PrintSegment(segment) == if segment == "" then "" else RenderWord(KeyWords(segment)[0]) + " "
  {
  }

  lemma PrintedValue(value: string)
    ensures RenderWord(ValueWord(value)) == if ShouldQuote(value) then "\"" + value + "\"" else value
  {
  }

  lemma QuotedTail(key: string, value: string)
    ensures key + ("\"" + value + "\"") == key + "\"" + value + "\""
    ensures "" + key == key
  {
  }

  lemma DropsLast(text: string, rendered: string)
    requires rendered + " " == text
    ensures |text| > 0 && text[..|text| - 1] == rendered
  {
  }

  lemma PrintedKey(a: string, b: string)
    ensures "" + PrintSegment(a) + PrintSegment(b) == Spaced(a) + Spaced(b)
  {
    hide PrintSegment, RenderWord, KeyWords;
    PrintedSegment(a);
    PrintedSegment(b);
  }

  // Printing a line is rendering its words.
  lemma PrintingRendersWords(line: ConfigLine)
    requires Joinable(line)
    ensures PrintLine(line) == Render(WordsOf(line))
  {
    hide Render, RenderWord, PrintLine, PrintSegment, ShouldQuote, ValueWord, KeyWords, Spaced;
    var a, b, value := line.key.At(0), line.key.At(1), line.value.At(0);
    PrintedParts(line);
    PrintedKey(a, b);
    var key := Spaced(a) + Spaced(b);
    if line.value.Empty() {
      RenderKeyAnd(a, b, []);
      DropsLast(key, Render(WordsOf(line)));
    } else {
      RenderKeyAnd(a, b, [ValueWord(value)]);
      PrintedValue(value);
      QuotedTail(key, value);
    }
  }

  function Spaced(segment: string): string {
    if segment == "" then "" else RenderWord(KeyWords(segment)[0]) + " "
  }

  // One or two key words in front of at most one more word.
  lemma RenderKeyAnd(a: string, b: string, last: seq<Word>)
    requires |last| <= 1 && (|last| == 0 ==> a != "" || b != "")
    ensures var rendered := Render(KeyWords(a) + KeyWords(b) + last);
            if |last| == 1 then rendered == Spaced(a) + Spaced(b) + RenderWord(last[0])
            else rendered + " " == Spaced(a) + Spaced(b)
  {
    hide RenderWord, Render;
    var rest := KeyWords(b) + last;
    assert KeyWords(a) + KeyWords(b) + last == KeyWords(a) + rest;
    if a == "" {
      assert KeyWords(a) + rest == rest;
      RenderTail(b, last);
    } else if rest == [] {
      RenderOne(KeyWords(a)[0]);
      assert KeyWords(a) + rest == [KeyWords(a)[0]];
    } else {
      RenderTail(b, last);
      RenderHead(a, rest);
      if |last| == 1 {
        Associate(Spaced(a), Spaced(b), RenderWord(last[0]));
      } else {
        Associate(Spaced(a), Render(rest), " ");
      }
    }
  }

  lemma Associate(x: string, y: string, z: string)
    ensures x + (y + z) == x + y + z
  {
  }

  lemma RenderHead(a: string, rest: seq<Word>)
    requires a != "" && |rest| > 0
    ensures Render(KeyWords(a) + rest) == Spaced(a) + Render(rest)
  {
    hide Render, RenderWord;
    RenderCons(KeyWords(a)[0], rest);
    assert KeyWords(a) == [KeyWords(a)[0]];
  }

  lemma RenderTail(b: string, last: seq<Word>)
    requires |last| <= 1 && (|last| == 0 ==> b != "")
    ensures var rendered := Render(KeyWords(b) + last);
            if |last| == 1 then rendered == Spaced(b) + RenderWord(last[0]) else rendered + " " == Spaced(b)
  {
    hide RenderWord;
    if last == [] {
      RenderOne(KeyWords(b)[0]);
      assert KeyWords(b) + last == [KeyWords(b)[0]];
    } else {
      RenderOne(last[0]);
      assert last == [last[0]];
      if b == "" {
        assert KeyWords(b) + last == last;
      } else {
        RenderCons(KeyWords(b)[0], last);
        assert KeyWords(b) + last == [KeyWords(b)[0]] + last;
      }
    }
  }

  // ----- what one printed line is read as -----

  lemma TextsOfKey(segment: string, rest: seq<Word>)
    ensures Texts(KeyWords(segment) + rest) == NonEmpty(segment) + Texts(rest)
  {
    if segment == "" {
      assert KeyWords(segment) + rest == rest;
    } else {
      var word := KeyWords(segment)[0];
      assert KeyWords(segment) + rest == [word] + rest;
      assert ([word] + rest)[1..] == rest;
    }
  }

  lemma TextsOfWords(line: ConfigLine)
    ensures Texts(WordsOf(line))
         == NonEmpty(line.key.At(0)) + NonEmpty(line.key.At(1))
            + (if line.value.Empty() then [] else NonEmpty(line.value.At(0)))
  {
    hide KeyWords, ValueWord, NonEmpty;
    var a, b, v := line.key.At(0), line.key.At(1), line.value.At(0);
    var last := if line.value.Empty() then [] else [ValueWord(v)];
    assert KeyWords(a) + KeyWords(b) + last == KeyWords(a) + (KeyWords(b) + last);
    TextsOfKey(a, KeyWords(b) + last);
    TextsOfKey(b, last);
    TextsOfLast(line.value);
  }

  lemma TextsOfLast(value: KeyType)
    ensures Texts(if value.Empty() then [] else [ValueWord(value.At(0))])
         == if value.Empty() then [] else NonEmpty(value.At(0))
  {
  }

  // A line with a key and a value is scanned into the segments and the value that
  // are not empty.
  lemma LineWithKeyIsScanned(line: ConfigLine)
    requires Plain(line) && !line.value.Empty() && (line.key.At(0) != "" || line.key.At(1) != "")
    ensures Tokens(PrintLine(line), 0, 0, -1)
         == NonEmpty(line.key.At(0)) + NonEmpty(line.key.At(1)) + NonEmpty(line.value.At(0))
  {
    hide Tokens, Texts, Render, PrintLine, NonEmpty, ValueWord;
    WordsAreClean(line);
    PrintingRendersWords(line);
    TextsOfWords(line);
    var text := PrintLine(line);
    assert text[0..] == text;
    ScannerReadsWords(text, 0, WordsOf(line));
  }

  // A line that prints no key has at most one token.
  lemma LineWithoutKeyHasOneToken(line: ConfigLine)
    requires Plain(line) && !line.value.Empty() && line.key.At(0) == "" && line.key.At(1) == ""
    ensures var tokens := Tokens(PrintLine(line), 0, 0, -1);
            |tokens| <= 1 && (|tokens| == 1 ==> tokens[0] != "")
  {
    hide Tokens, Render, PrintLine;
    WordsAreClean(line);
    PrintingRendersWords(line);
    var text := PrintLine(line);
    var word := ValueWord(line.value.At(0));
    assert WordsOf(line) == [word];
    RenderOne(word);
    if word.Quoted? {
      assert text[0..] == text;
      ScannerReadsWords(text, 0, [word]);
    } else {
      assert Clean(word);
      LoneBareWordLosesItsEnd(word.text);
    }
  }

  // What a token list is read as.
  predicate ReadAs(tokens: seq<string>, line: ConfigLine) {
    var key, value := line.key.Segments(), line.value.Segments();
    if |tokens| == 0 then false
    else if |tokens| == 1 then key == tokens && value == [""]
    else key == tokens[..|tokens| - 1] && value == [tokens[|tokens| - 1]]
  }

  predicate Reproduced(line: ConfigLine)
    requires Joinable(line)
  {
    var got := ParseLine(PrintLine(line));
    |got| == 1 && SameEntry(got[0], line)
  }

  lemma ReproducedMeansReadAs(line: ConfigLine)
    requires Joinable(line)
    ensures Reproduced(line) <==> ReadAs(Tokens(PrintLine(line), 0, 0, -1), line)
  {
    hide Tokens, PrintLine;
    var got := ParseLine(PrintLine(line));
    if |got| == 1 {
      EqualKeysHaveEqualSegments(got[0].key, line.key);
      EqualKeysHaveEqualSegments(got[0].value, line.value);
    }
  }

  lemma PairOfNonEmpty(a: string, b: string, v: string, line: ConfigLine)
    requires a != "" || b != ""
    requires line.value.Segments() == [v] && a == line.key.At(0) && b == line.key.At(1)
    ensures ReadAs(NonEmpty(a) + NonEmpty(b) + NonEmpty(v), line) <==> Printable(line)
  {
    var key := line.key.Segments();
    var tokens := NonEmpty(a) + NonEmpty(b) + NonEmpty(v);
    if v == "" {
      if a != "" && b != "" {
        assert tokens == [a, b];
      } else {
        assert tokens == [if a != "" then a else b];
      }
    } else if a != "" && b != "" {
      assert tokens == [a, b, v];
      assert tokens[..2] == [a, b];
    } else {
      assert tokens == [if a != "" then a else b, v];
      assert tokens[..1] == [if a != "" then a else b];
    }
  }

  // A line comes back as it was exactly when it is printable.
  lemma ReproducedExactlyWhenPrintable(line: ConfigLine)
    requires Joinable(line) && Plain(line)
    ensures Reproduced(line) <==> Printable(line)
  {
    hide Tokens, PrintLine, NonEmpty, Reproduced, Plain;
    ReproducedMeansReadAs(line);
    var value := line.value.Segments();
    if |value| != 1 {
    } else if line.key.At(0) == "" && line.key.At(1) == "" {
      LineWithoutKeyHasOneToken(line);
    } else {
      LineWithKeyIsScanned(line);
      assert value == [line.value.At(0)];
      PairOfNonEmpty(line.key.At(0), line.key.At(1), line.value.At(0), line);
    }
  }

  // ----- the lines of a saved text -----

  predicate BreakFree(text: string) {
    forall c :: c in text ==> c != '\r' && c != '\n'
  }

  // Every line followed by the line break.
  function Terminated(lines: seq<string>, endLine: string): string {
    if |lines| == 0 then "" else lines[0] + endLine + Terminated(lines[1..], endLine)
  }

  lemma NextIs(text: string, separator: string, from: nat, p: nat)
    requires from <= p && |separator| > 0 && SeparatorAt(text, separator, p)
    requires forall q :: from <= q < p ==> !SeparatorAt(text, separator, q)
    ensures NextSeparator(text, separator, from) == p
  {
  }

  // A line break right behind a stretch without breaks is the first one there.
  lemma BreakBehindLine(text: string, endLine: string, start: nat, from: nat, p: nat)
    requires IsLineBreak(endLine) && start <= from <= p && SeparatorAt(text, endLine, p) && BreakFree(text[start..p])
    ensures NextSeparator(text, endLine, from) == p
  {
    forall q | from <= q < p ensures !SeparatorAt(text, endLine, q) {
      assert text[q] == text[start..p][q - start];
      assert text[q] in text[start..p];
      assert q + |endLine| <= |text| ==> text[q..q + |endLine|][0] == text[q];
    }
    NextIs(text, endLine, from, p);
  }

  lemma LineThenRest(text: string, start: nat, line: string, endLine: string, rest: string)
    requires start <= |text| && text[start..] == line + endLine + rest
    ensures var p := start + |line|;
            && p + |endLine| <= |text| && text[start..p] == line && text[p..p + |endLine|] == endLine
            && text[p + |endLine|..] == rest
  {
    var tail := text[start..];
    assert tail[..|line|] == line && tail[|line|..|line| + |endLine|] == endLine && tail[|line| + |endLine|..] == rest;
    var p := start + |line|;
    assert text[p..p + |endLine|] == tail[|line|..|line| + |endLine|];
  }

  lemma {:induction false} PiecesOfTerminated(text: string, endLine: string, start: nat, from: nat, lines: seq<string>)
    requires IsLineBreak(endLine) && start <= from <= |text| && text[start..] == Terminated(lines, endLine)
    requires forall i :: 0 <= i < |lines| ==> BreakFree(lines[i])
    requires from == start || (|lines| > 0 && from <= start + |lines[0]|)
    ensures Pieces(text, endLine, start, from) == lines + [""]
    decreases |lines|
  {
    hide NextSeparator, BreakFree;
    if |lines| == 0 {
      assert text[start..] == "";
      AtTheEnd(text, endLine);
    } else {
      var p := start + |lines[0]|;
      LineThenRest(text, start, lines[0], endLine, Terminated(lines[1..], endLine));
      BreakBehindLine(text, endLine, start, from, p);
      PiecesOfTerminated(text, endLine, p + |endLine|, p + |endLine|, lines[1..]);
      assert lines + [""] == [lines[0]] + (lines[1..] + [""]);
    }
  }

  lemma AtTheEnd(text: string, separator: string)
    requires |separator| > 0
    ensures NextSeparator(text, separator, |text|) == |text|
  {
  }

  // Splitting a saved text gives the printed lines and one empty line.
  lemma LinesOfTerminated(lines: seq<string>, endLine: string)
    requires IsLineBreak(endLine) && |lines| > 0 && lines[0] != ""
    requires forall i :: 0 <= i < |lines| ==> BreakFree(lines[i])
    ensures var text := Terminated(lines, endLine);
            |endLine| < |text| && Lines(text, endLine) == lines + [""]
  {
    hide Pieces;
    var text := Terminated(lines, endLine);
    assert text[0..] == text;
    PiecesOfTerminated(text, endLine, 0, 1, lines);
  }

  lemma {:induction false} NoCarriageReturn(lines: seq<string>)
    requires forall i :: 0 <= i < |lines| ==> BreakFree(lines[i])
    ensures '\r' !in Terminated(lines, LF)
  {
    if |lines| > 0 {
      NoCarriageReturn(lines[1..]);
    }
  }

  // A text without carriage returns is one line to the first splitting attempt.
  lemma OneLineByCrlf(text: string)
    requires '\r' !in text && |text| >= 2
    ensures Lines(text, CRLF) == [text]
  {
    forall p: nat ensures !SeparatorAt(text, CRLF, p) {
      if p + 2 <= |text| {
        assert text[p..p + 2][0] == text[p];
        assert text[p] in text;
      }
    }
    assert NextSeparator(text, CRLF, 1) == |text|;
    assert text[0..] == text;
  }

  // ----- the whole text -----

  function PrintedLines(entries: seq<ConfigLine>): (r: seq<string>)
    requires AllJoinable(entries)
    ensures |r| == |entries|
    ensures forall i :: 0 <= i < |entries| ==> r[i] == PrintLine(entries[i])
  {
    seq(|entries|, i requires 0 <= i < |entries| => PrintLine(entries[i]))
  }

  lemma {:induction false} TerminatedAtTheEnd(lines: seq<string>, last: string, endLine: string)
    ensures Terminated(lines + [last], endLine) == Terminated(lines, endLine) + last + endLine
  {
    if |lines| == 0 {
      assert (lines + [last])[1..] == [];
    } else {
      TerminatedAtTheEnd(lines[1..], last, endLine);
      assert (lines + [last])[1..] == lines[1..] + [last];
    }
  }

  lemma {:induction false} PrintingTerminatesLines(entries: seq<ConfigLine>, endLine: string)
    requires AllJoinable(entries)
    ensures PrintLines(entries, endLine) == Terminated(PrintedLines(entries), endLine)
  {
    hide PrintLine;
    var n := |entries|;
    if n > 0 {
      PrintingTerminatesLines(entries[..n - 1], endLine);
      TerminatedAtTheEnd(PrintedLines(entries[..n - 1]), PrintLine(entries[n - 1]), endLine);
      assert PrintedLines(entries) == PrintedLines(entries[..n - 1]) + [PrintLine(entries[n - 1])];
    }
  }

  lemma BreakFreeParts(key: string, value: string)
    requires BreakFree(key) && BreakFree(value)
    ensures BreakFree("" + key) && BreakFree(key + value) && BreakFree(key + "\"" + value + "\"")
  {
  }

  lemma HarmlessIsBreakFree(text: string)
    requires Harmless(text)
    ensures BreakFree(text)
  {
  }

  lemma PrintedLineIsBreakFree(line: ConfigLine)
    requires Joinable(line) && Plain(line)
    ensures BreakFree(PrintLine(line)) && PrintLine(line) != ""
  {
    hide PrintLine, PrintSegment, ShouldQuote, BreakFree, Harmless, Joinable;
    var a, b, value := line.key.At(0), line.key.At(1), line.value.At(0);
    SegmentIsHarmless(line.key, 0);
    SegmentIsHarmless(line.key, 1);
    SegmentIsHarmless(line.value, 0);
    PrintedSegmentIsBreakFree(a);
    PrintedSegmentIsBreakFree(b);
    HarmlessIsBreakFree(value);
    BreakFreeParts(PrintSegment(a), PrintSegment(b));
    PrintedParts(line);
    var key := "" + PrintSegment(a) + PrintSegment(b);
    assert "" + PrintSegment(a) == PrintSegment(a);
    BreakFreeParts(key, value);
    if line.value.Empty() {
      PrefixIsBreakFree(key, |key| - 1);
      KeyIsLongEnough(line);
    } else if !ShouldQuote(value) {
      assert value != "" by { ShouldQuoteEmpty(); }
    }
  }

  lemma KeyIsLongEnough(line: ConfigLine)
    requires Joinable(line) && line.value.Empty()
    requires AllHarmless(line.key.Segments())
    ensures |PrintSegment(line.key.At(0)) + PrintSegment(line.key.At(1))| >= 2
  {
    hide PrintSegment, Harmless;
    SegmentIsHarmless(line.key, 0);
    SegmentIsHarmless(line.key, 1);
    PrintedSegmentIsBreakFree(line.key.At(0));
    PrintedSegmentIsBreakFree(line.key.At(1));
  }

  lemma ShouldQuoteEmpty()
    ensures ShouldQuote("")
  {
  }

  lemma PrefixIsBreakFree(text: string, n: nat)
    requires BreakFree(text) && n <= |text|
    ensures BreakFree(text[..n])
  {
    forall c | c in text[..n] ensures c in text {
    }
  }

  lemma PrintedSegmentIsBreakFree(segment: string)
    requires Harmless(segment)
    ensures BreakFree(PrintSegment(segment))
    ensures segment != "" ==> |PrintSegment(segment)| >= 2
  {
  }

  function Reread(entries: seq<ConfigLine>): seq<ConfigLine>
    requires AllJoinable(entries)
  {
    ParseLines(PrintedLines(entries))
  }

  lemma RereadStep(entries: seq<ConfigLine>)
    requires AllJoinable(entries) && |entries| > 0
    ensures var n := |entries|;
            Reread(entries) == Reread(entries[..n - 1]) + ParseLine(PrintLine(entries[n - 1]))
  {
    hide PrintLine, ParseLine;
    assert PrintedLines(entries)[..|entries| - 1] == PrintedLines(entries[..|entries| - 1]);
  }

  lemma {:induction false} RereadIsNoLonger(entries: seq<ConfigLine>)
    requires AllJoinable(entries)
    ensures |Reread(entries)| <= |entries|
  {
    hide PrintLine, Tokens, Reread;
    if |entries| == 0 {
      RereadNothing();
    } else {
      RereadStep(entries);
      RereadIsNoLonger(entries[..|entries| - 1]);
    }
  }

  lemma RereadNothing()
    ensures Reread([]) == []
  {
  }

  predicate SameEntries(a: seq<ConfigLine>, b: seq<ConfigLine>) {
    |a| == |b| && forall i :: 0 <= i < |a| ==> SameEntry(a[i], b[i])
  }

  // The entries come back exactly when every single one does: no line can stand in
  // for another.
  lemma {:induction false} RereadExactlyWhenAllReproduced(entries: seq<ConfigLine>)
    requires AllJoinable(entries)
    ensures SameEntries(Reread(entries), entries) <==> forall i :: 0 <= i < |entries| ==> Reproduced(entries[i])
  {
    hide PrintLine, ParseLine, Reread, SameEntry;
    var n := |entries|;
    if n == 0 {
      RereadNothing();
    } else {
      var init := entries[..n - 1];
      RereadStep(entries);
      RereadIsNoLonger(init);
      RereadExactlyWhenAllReproduced(init);
      var last := ParseLine(PrintLine(entries[n - 1]));
      OneEntryALine(PrintLine(entries[n - 1]));
      var got := Reread(entries);
      if SameEntries(got, entries) {
        assert |last| == 1 && |Reread(init)| == n - 1;
        assert got[n - 1] == last[0];
        assert SameEntry(got[n - 1], entries[n - 1]);
        forall i | 0 <= i < n - 1 ensures SameEntry(Reread(init)[i], init[i]) {
          assert got[i] == Reread(init)[i];
          assert SameEntry(got[i], entries[i]);
        }
        assert SameEntries(Reread(init), init);
      }
      if forall i :: 0 <= i < n ==> Reproduced(entries[i]) {
        assert Reproduced(entries[n - 1]);
        forall i | 0 <= i < n - 1 ensures Reproduced(init[i]) {
          assert init[i] == entries[i];
        }
        assert SameEntries(Reread(init), init);
      }
    }
  }

  lemma OneEntryALine(line: string)
    ensures |ParseLine(line)| <= 1
  {
  }

  predicate AllPlain(entries: seq<ConfigLine>) {
    forall i :: 0 <= i < |entries| ==> Plain(entries[i])
  }

  predicate AllPrintable(entries: seq<ConfigLine>) {
    forall i :: 0 <= i < |entries| ==> Printable(entries[i])
  }

  // Loading a saved text reads its printed lines back, with the same line break.
  lemma LoadingSavedText(entries: seq<ConfigLine>, endLine: string)
    requires IsLineBreak(endLine) && |entries| > 0 && AllJoinable(entries) && AllPlain(entries)
    requires IsAsciiTextConfig(PrintLines(entries, endLine))
    ensures Load(PrintLines(entries, endLine))
         == if Reread(entries) == [] then NoConfig else Loaded(Reread(entries), endLine)
  {
    hide Lines, ParseLine, PrintLine, Terminated, BreakFree, PrintLines, IsAsciiTextConfig;
    var lines := PrintedLines(entries);
    var text := PrintLines(entries, endLine);
    PrintingTerminatesLines(entries, endLine);
    forall i | 0 <= i < |lines| ensures BreakFree(lines[i]) && lines[i] != "" {
      PrintedLineIsBreakFree(entries[i]);
    }
    LinesOfTerminated(lines, endLine);
    if endLine == LF {
      NoCarriageReturn(lines);
      OneLineByCrlf(text);
    }
    EmptyLineIsSkipped(lines);
  }

  lemma EmptyLineIsSkipped(lines: seq<string>)
    ensures ParseLines(lines + [""]) == ParseLines(lines)
  {
    hide ParseLine;
    EmptyLineIsNothing();
    assert (lines + [""])[..|lines|] == lines;
  }

  lemma EmptyLineIsNothing()
    ensures ParseLine("") == []
  {
  }

  predicate Reloads(entries: seq<ConfigLine>, endLine: string)
    requires AllJoinable(entries)
  {
    var loaded := Load(PrintLines(entries, endLine));
    loaded.Loaded? && loaded.endLine == endLine && SameEntries(loaded.entries, entries)
  }

  // The round trip: a text that passes the gate loads as the same keys and values,
  // in order, with the same line ending, exactly when every entry is printable.
  lemma ReloadsExactlyWhenPrintable(entries: seq<ConfigLine>, endLine: string)
    requires IsLineBreak(endLine) && |entries| > 0 && AllJoinable(entries) && AllPlain(entries)
    requires IsAsciiTextConfig(PrintLines(entries, endLine))
    ensures Reloads(entries, endLine) <==> AllPrintable(entries)
  {
    hide Load, Reread, Reproduced, Printable, Plain, Joinable, PrintLines, IsAsciiTextConfig;
    LoadingSavedText(entries, endLine);
    RereadExactlyWhenAllReproduced(entries);
    forall i | 0 <= i < |entries| ensures Reproduced(entries[i]) <==> Printable(entries[i]) {
      ReproducedExactlyWhenPrintable(entries[i]);
    }
  }

  // ----- the answers of the reloaded store -----

  lemma {:induction false} SameEntriesSameMatch(a: seq<ConfigLine>, b: seq<ConfigLine>, key: KeyType)
    requires SameEntries(a, b)
    ensures LastMatch(a, key) == LastMatch(b, key)
  {
    forall i | 0 <= i < |a| ensures a[i].key.Equals(key) <==> b[i].key.Equals(key) {
      assert SameEntry(a[i], b[i]);
      EqualKeysHaveEqualSegments(a[i].key, b[i].key);
      EqualKeysHaveEqualSegments(a[i].key, key);
      EqualKeysHaveEqualSegments(b[i].key, key);
    }
  }

  // Saving and reloading printable entries changes no answer of `find`.
  lemma ReloadingKeepsAnswers(entries: seq<ConfigLine>, endLine: string, key: KeyType)
    requires IsLineBreak(endLine) && |entries| > 0 && AllJoinable(entries) && AllPlain(entries) && AllPrintable(entries)
    requires IsAsciiTextConfig(PrintLines(entries, endLine))
    ensures var loaded := Load(PrintLines(entries, endLine));
            loaded.Loaded? && Found(loaded.entries, key).Equals(Found(entries, key))
  {
    hide Load, Printable, Plain, Joinable, PrintLines, IsAsciiTextConfig;
    ReloadsExactlyWhenPrintable(entries, endLine);
    var loaded := Load(PrintLines(entries, endLine)).entries;
    SameEntriesSameMatch(loaded, entries, key);
    var i := LastMatch(entries, key);
    if i < |entries| {
      assert SameEntry(loaded[i], entries[i]);
    }
  }
}
