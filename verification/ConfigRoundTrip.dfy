// What loading gives back of a printed configuration.
module ConfigRoundTrip {
  import opened ConfigStore
  import opened ConfigText

  // ----- lines -----

  function Join(pieces: seq<string>, separator: string): string {
    if |pieces| == 0 then ""
    else if |pieces| == 1 then pieces[0]
    else pieces[0] + separator + Join(pieces[1..], separator)
  }

  predicate Contains(text: string, separator: string) {
    exists p :: 0 <= p < |text| && SeparatorAt(text, separator, p)
  }

  lemma JoinStep(first: string, rest: seq<string>, separator: string)
    requires |rest| > 0
    ensures Join([first] + rest, separator) == first + separator + Join(rest, separator)
  {
    assert ([first] + rest)[1..] == rest;
  }

  lemma JoinSingle(piece: string, separator: string)
    ensures Join([piece], separator) == piece
  {
  }

  lemma ThreeParts(text: string, a: nat, b: nat, c: nat)
    requires a <= b <= c <= |text|
    ensures text[a..] == text[a..b] + text[b..c] + text[c..]
  {
  }

  lemma {:induction false} PiecesJoin(text: string, separator: string, start: nat, from: nat)
    requires start <= from <= |text| && |separator| > 0
    ensures |Pieces(text, separator, start, from)| > 0
    ensures Join(Pieces(text, separator, start, from), separator) == text[start..]
    decreases |text| - from
  {
    hide Join;
    var p := NextSeparator(text, separator, from);
    if p < |text| {
      var next := p + |separator|;
      PiecesJoin(text, separator, next, next);
      JoinStep(text[start..p], Pieces(text, separator, next, next), separator);
      ThreeParts(text, start, p, next);
    } else {
      JoinSingle(text[start..], separator);
    }
  }

  lemma {:induction false} LaterPiecesAreClean(text: string, separator: string, start: nat)
    requires start <= |text| && |separator| > 0
    ensures forall piece :: piece in Pieces(text, separator, start, start) ==> !Contains(piece, separator)
    decreases |text| - start
  {
    var p := NextSeparator(text, separator, start);
    CleanPiece(text, separator, start, start, p);
    if p < |text| {
      LaterPiecesAreClean(text, separator, p + |separator|);
    } else {
      assert text[start..p] == text[start..];
    }
  }

  lemma SliceOfSlice(s: string, a: nat, b: nat, p: nat, q: nat)
    requires a <= b <= |s| && p <= q <= b - a
    ensures s[a..b][p..q] == s[a + p..a + q]
  {
    var left, right := s[a..b][p..q], s[a + p..a + q];
    assert |left| == |right|;
    assert forall k :: 0 <= k < |left| ==> left[k] == right[k];
  }

  // A separator inside a piece would have been found, unless it lies before the
  // first place that counts.
  lemma CleanPiece(text: string, separator: string, start: nat, from: nat, p: nat)
    requires start <= from <= p <= |text| && |separator| > 0
    requires forall q :: from <= q < p ==> !SeparatorAt(text, separator, q)
    requires forall q :: start <= q < from ==> !SeparatorAt(text, separator, q)
    ensures !Contains(text[start..p], separator)
  {
    if Contains(text[start..p], separator) {
      var q :| 0 <= q < |text[start..p]| && SeparatorAt(text[start..p], separator, q);
      SliceOfSlice(text, start, p, q, q + |separator|);
      assert SeparatorAt(text, separator, start + q);
    }
  }

  lemma FirstLine(text: string, separator: string)
    requires IsLineBreak(separator) && |separator| <= |text|
    ensures var p := NextSeparator(text, separator, 1);
            Lines(text, separator)
            == [text[..p]] + (if p == |text| then [] else Pieces(text, separator, p + |separator|, p + |separator|))
  {
    assert text[..|text|] == text[0..] == text;
  }

  // The first line begins with the separator exactly when the text does.
  lemma FirstLineContains(text: string, separator: string, p: nat)
    requires IsLineBreak(separator) && |separator| <= |text| && p == NextSeparator(text, separator, 1)
    ensures Contains(text[..p], separator) <==> SeparatorAt(text, separator, 0)
  {
    if SeparatorAt(text, separator, 0) {
      if p < |separator| && p < |text| {
        NoOverlap(text, separator, |separator|, p);
      }
      SliceOfSlice(text, 0, p, 0, |separator|);
      assert text[0..p] == text[..p];
      assert SeparatorAt(text[..p], separator, 0);
    } else {
      CleanPiece(text, separator, 0, 1, p);
      assert text[0..p] == text[..p];
    }
  }

  // Splitting loses nothing, and no line contains the separator exactly when the
  // text does not begin with it.
  lemma SplittingIsLossless(text: string, separator: string)
    requires IsLineBreak(separator) && |separator| <= |text|
    ensures Join(Lines(text, separator), separator) == text
    ensures (forall line :: line in Lines(text, separator) ==> !Contains(line, separator))
            <==> !SeparatorAt(text, separator, 0)
  {
    hide Pieces, Contains, Join;
    PiecesJoin(text, separator, 0, 1);
    assert text[0..] == text;
    var p := NextSeparator(text, separator, 1);
    FirstLine(text, separator);
    FirstLineContains(text, separator, p);
    assert Lines(text, separator)[0] == text[..p];
    assert text[..p] in Lines(text, separator);
    if p < |text| {
      LaterPiecesAreClean(text, separator, p + |separator|);
    }
  }

  // Wherever the text begins, no later line contains the separator, and the first line
  // can only contain it at its beginning.
  lemma SeparatorsOnlyAtTheBeginning(text: string, separator: string, i: nat, q: nat)
    requires IsLineBreak(separator) && |separator| <= |text| && i < |Lines(text, separator)|
    ensures SeparatorAt(Lines(text, separator)[i], separator, q) ==> i == 0 && q == 0
  {
    hide Pieces, Lines;
    var p := NextSeparator(text, separator, 1);
    FirstLine(text, separator);
    var line := Lines(text, separator)[i];
    if i > 0 {
      LaterPiecesAreClean(text, separator, p + |separator|);
      assert !Contains(line, separator);
    } else if q > 0 && q + |separator| <= p {
      SliceOfSlice(text, 0, p, q, q + |separator|);
      assert text[0..p] == text[..p] == line;
      assert !SeparatorAt(text, separator, q);
    }
  }

  // ----- tokens -----

  // A token as it can be written in a line.
  datatype Word = Bare(text: string) | Quoted(text: string)

  predicate Clean(word: Word) {
    match word
    case Bare(text) => text != "" && forall c :: c in text ==> !IsBlank(c) && c != '"'
    case Quoted(text) => '"' !in text
  }

  predicate AllClean(words: seq<Word>) {
    forall i :: 0 <= i < |words| ==> Clean(words[i])
  }

  function RenderWord(word: Word): string {
    match word
    case Bare(text) => text
    case Quoted(text) => "\"" + text + "\""
  }

  // Words separated by single spaces.
  function Render(words: seq<Word>): string {
    if |words| == 0 then ""
    else if |words| == 1 then RenderWord(words[0])
    else RenderWord(words[0]) + " " + Render(words[1..])
  }

  function Texts(words: seq<Word>): seq<string> {
    if |words| == 0 then [] else NonEmpty(words[0].text) + Texts(words[1..])
  }

  lemma {:induction false} ScanBare(line: string, i: nat, end: nat, start: nat)
    requires i <= end < |line| && start <= i
    requires forall j :: i <= j <= end ==> line[j] != '"'
    requires forall j :: i < j <= end ==> !IsBlank(line[j])
    ensures Tokens(line, i, start, -1) == Tokens(line, end, start, -1)
    decreases end - i
  {
    if i < end {
      ScanBare(line, i + 1, end, start);
    }
  }

  lemma {:induction false} ScanQuoted(line: string, i: nat, end: nat, start: nat, quote: nat)
    requires quote < i <= end < |line| && start <= i
    requires forall j :: i <= j < end ==> line[j] != '"'
    ensures Tokens(line, i, start, quote) == Tokens(line, end, start, quote)
    decreases end - i
  {
    if i < end {
      ScanQuoted(line, i + 1, end, start, quote);
    }
  }

  // The space between two words.
  lemma ScanSpace(line: string, i: nat)
    requires i + 1 < |line| && line[i] == ' ' && !IsBlank(line[i + 1])
    ensures Tokens(line, i, i + 1, -1) == Tokens(line, i + 1, i + 1, -1)
  {
  }

  lemma WordStartsVisibly(words: seq<Word>)
    requires |words| > 0 && AllClean(words)
    ensures |Render(words)| > 0 && !IsBlank(Render(words)[0])
  {
    assert Clean(words[0]);
    var w := RenderWord(words[0]);
    assert |w| > 0 && !IsBlank(w[0]) by {
      if words[0].Bare? {
        assert w[0] in words[0].text;
      }
    }
    assert Render(words)[0] == w[0];
  }

  // A bare word that is not the whole line.
  lemma TokensOfBare(line: string, i: nat, text: string)
    requires Clean(Bare(text)) && i + |text| <= |line| && line[i..i + |text|] == text
    ensures i + |text| == |line| && i > 0 ==> Tokens(line, i, i, -1) == [text]
    ensures i + |text| < |line| - 1 && line[i + |text|] == ' ' && !IsBlank(line[i + |text| + 1]) ==>
              Tokens(line, i, i, -1) == [text] + Tokens(line, i + |text| + 1, i + |text| + 1, -1)
  {
    var end := i + |text| - 1;
    forall j | i <= j <= end ensures line[j] != '"' && !IsBlank(line[j]) {
      assert line[j] == line[i..i + |text|][j - i];
      assert line[j] in text;
    }
    ScanBare(line, i, end, i);
    if end == |line| - 1 {
      assert line[i..] == text;
    } else if end + 2 < |line| && line[end + 1] == ' ' && !IsBlank(line[end + 2]) {
      ScanSpace(line, end + 1);
    }
  }

  lemma QuoteOpens(line: string, i: nat)
    requires i < |line| && line[i] == '"'
    ensures Tokens(line, i, i, -1) == Tokens(line, i + 1, i, i)
  {
  }

  lemma QuoteCloses(line: string, close: nat, start: nat, quote: nat)
    requires quote < close < |line| && start <= close + 1 && line[close] == '"'
    ensures close + 1 == |line| ==> Tokens(line, close, start, quote) == NonEmpty(line[quote + 1..close])
    ensures close + 1 < |line| && line[close + 1] == ' ' ==>
              Tokens(line, close, start, quote)
              == NonEmpty(line[quote + 1..close]) + Tokens(line, close + 1, close + 2, -1)
  {
    hide NonEmpty;
    NoTokensAtTheEnd(line, start, quote, []);
  }

  lemma BetweenQuotes(line: string, i: nat, text: string)
    requires '"' !in text && i + |text| + 2 <= |line| && line[i..i + |text| + 2] == "\"" + text + "\""
    ensures line[i] == line[i + |text| + 1] == '"' && line[i + 1..i + |text| + 1] == text
    ensures forall j :: i + 1 <= j < i + |text| + 1 ==> line[j] != '"'
  {
    var slice := line[i..i + |text| + 2];
    assert line[i] == slice[0] && line[i + |text| + 1] == slice[|text| + 1];
    SliceOfSlice(line, i, i + |text| + 2, 1, |text| + 1);
    assert slice[1..|text| + 1] == text;
    forall j | i + 1 <= j < i + |text| + 1 ensures line[j] != '"' {
      assert line[j] == text[j - i - 1];
      assert text[j - i - 1] in text;
    }
  }

  lemma TokensOfQuoted(line: string, i: nat, text: string)
    requires Clean(Quoted(text)) && i + |text| + 2 <= |line| && line[i..i + |text| + 2] == "\"" + text + "\""
    ensures i + |text| + 2 == |line| ==> Tokens(line, i, i, -1) == NonEmpty(text)
    ensures i + |text| + 2 < |line| - 1 && line[i + |text| + 2] == ' ' && !IsBlank(line[i + |text| + 3]) ==>
              Tokens(line, i, i, -1) == NonEmpty(text) + Tokens(line, i + |text| + 3, i + |text| + 3, -1)
  {
    hide Tokens, NonEmpty, IsBlank;
    var close := i + |text| + 1;
    BetweenQuotes(line, i, text);
    QuoteOpens(line, i);
    ScanQuoted(line, i + 1, close, i, i);
    QuoteCloses(line, close, i, i);
    if close + 2 < |line| && line[close + 1] == ' ' && !IsBlank(line[close + 2]) {
      ScanSpace(line, close + 1);
    }
  }

  lemma RenderStep(words: seq<Word>)
    requires |words| > 0
    ensures |words| == 1 ==> Render(words) == RenderWord(words[0]) && Texts(words) == NonEmpty(words[0].text)
    ensures |words| > 1 ==> Render(words) == RenderWord(words[0]) + " " + Render(words[1..])
    ensures Texts(words) == NonEmpty(words[0].text) + Texts(words[1..])
  {
  }

  // Where the first word of a line's rest ends and what follows it.
  lemma FirstWordOfRest(line: string, i: nat, words: seq<Word>)
    requires |words| > 0 && AllClean(words) && i <= |line| && line[i..] == Render(words)
    ensures var end := i + |RenderWord(words[0])|;
            && end <= |line| && line[i..end] == RenderWord(words[0])
            && (|words| == 1 ==> end == |line|)
            && (|words| > 1 ==> end < |line| - 1 && line[end] == ' ' && !IsBlank(line[end + 1])
                                && line[end + 1..] == Render(words[1..]))
  {
    hide Render, RenderWord, IsBlank;
    RenderStep(words);
    if |words| > 1 {
      WordStartsVisibly(words[1..]);
      WordThenRest(line, i, RenderWord(words[0]), Render(words[1..]));
    }
  }

  lemma WordThenRest(line: string, i: nat, word: string, rest: string)
    requires i <= |line| && line[i..] == word + " " + rest && |rest| > 0
    ensures var end := i + |word|;
            && end < |line| - 1 && line[i..end] == word
            && line[end] == ' ' && line[end + 1] == rest[0] && line[end + 1..] == rest
  {
    var tail := line[i..];
    assert |tail| == |word| + 1 + |rest|;
    assert tail[..|word|] == word && tail[|word|] == ' ' && tail[|word| + 1..] == rest && tail[|word| + 1] == rest[0];
  }

  // The scanner, standing at a word, returns exactly the words' texts that are not
  // empty, bare or quoted, provided the line is not one lone bare word.
  lemma {:induction false} ScannerReadsWords(line: string, i: nat, words: seq<Word>)
    requires |words| > 0 && AllClean(words) && i <= |line| && line[i..] == Render(words)
    requires i > 0 || |words| > 1 || words[0].Quoted?
    ensures Tokens(line, i, i, -1) == Texts(words)
    decreases |words|
  {
    hide Render, Tokens, Texts, NonEmpty, IsBlank;
    FirstWordOfRest(line, i, words);
    RenderStep(words);
    assert Clean(words[0]);
    var end := i + |RenderWord(words[0])|;
    if words[0].Bare? {
      TokensOfBare(line, i, words[0].text);
      BareIsItself(words[0].text);
    } else {
      TokensOfQuoted(line, i, words[0].text);
    }
    if |words| > 1 {
      ScannerReadsWords(line, end + 1, words[1..]);
    }
  }

  lemma BareIsItself(text: string)
    requires text != ""
    ensures NonEmpty(text) == [text]
  {
  }

  // A line that is one lone bare word loses its last character.
  lemma LoneBareWordLosesItsEnd(text: string)
    requires Clean(Bare(text))
    ensures Tokens(text, 0, 0, -1) == NonEmpty(text[..|text| - 1])
  {
    forall j | 0 <= j < |text| ensures text[j] != '"' && !IsBlank(text[j]) {
      assert text[j] in text;
    }
    ScanBare(text, 0, |text| - 1, 0);
  }
}
