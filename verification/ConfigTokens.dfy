// What the scanner makes of lines in general: words between blanks, and the places
// where it goes its own way.
module ConfigTokens {
  import opened ConfigStore
  import opened ConfigText
  import opened ConfigRoundTrip

  // ----- words between blanks -----

  predicate BareWord(word: string) {
    word != "" && forall c :: c in word ==> c != ' ' && c != '\t' && c != '"'
  }

  predicate Gap(gap: string) {
    forall c :: c in gap ==> c == ' ' || c == '\t'
  }

  // Each word with the gap behind it; only the last gap may be empty.
  predicate Separated(words: seq<string>, gaps: seq<string>) {
    && |words| == |gaps| && |words| > 0
    && (forall i :: 0 <= i < |words| ==> BareWord(words[i]) && Gap(gaps[i]))
    && (forall i :: 0 <= i < |words| - 1 ==> gaps[i] != "")
  }

  function Spread(words: seq<string>, gaps: seq<string>): string
    requires |words| == |gaps|
  {
    if |words| == 0 then "" else words[0] + gaps[0] + Spread(words[1..], gaps[1..])
  }

  // From inside a gap the scanner goes on behind it.
  lemma {:induction false} ScanGap(line: string, j: nat, k: nat)
    requires j < k <= |line| && forall i :: j <= i < k ==> line[i] == ' ' || line[i] == '\t'
    requires k < |line| ==> line[k] != ' ' && line[k] != '\t'
    ensures Tokens(line, j, j + 1, -1) == if k == |line| then [] else Tokens(line, k, k, -1)
    decreases k - j
  {
    hide Tokens, NonEmpty, Substring;
    GapStep(line, j);
    if j + 1 < k {
      ScanGap(line, j + 1, k);
    }
  }

  lemma GapStep(line: string, j: nat)
    requires j < |line| && (line[j] == ' ' || line[j] == '\t')
    ensures j + 1 == |line| ==> Tokens(line, j, j + 1, -1) == []
    ensures j + 1 < |line| ==>
              Tokens(line, j, j + 1, -1)
              == if line[j + 1] == ' ' || line[j + 1] == '\t' then Tokens(line, j + 1, j + 2, -1)
                 else Tokens(line, j + 1, j + 1, -1)
  {
    if j + 1 == |line| {
      assert Substring(line, j + 1, j) == "";
    } else {
      assert line[j + 1..j + 1] == "";
    }
  }

  // A word that ends before a gap, or with the line.
  lemma WordEnds(line: string, i: nat, end: nat)
    requires i < end <= |line|
    requires forall j :: i <= j < end ==> line[j] != '"'
    requires forall j :: i < j < end ==> line[j] != ' ' && line[j] != '\t'
    ensures end == |line| && i > 0 ==> Tokens(line, i, i, -1) == [line[i..end]]
    ensures end < |line| && (line[end] == ' ' || line[end] == '\t') ==>
              Tokens(line, i, i, -1) == [line[i..end]] + Tokens(line, end, end + 1, -1)
    ensures end < |line| && line[end] == '"' ==> Tokens(line, i, i, -1) == Tokens(line, end, i, -1)
  {
    hide NonEmpty, Substring;
    ScanBare(line, i, end - 1, i);
    WordIsNotEmpty(line, i, end);
  }

  lemma WordIsNotEmpty(line: string, i: nat, end: nat)
    requires i < end <= |line|
    ensures NonEmpty(line[i..end]) == [line[i..end]]
    ensures end == |line| && i > 0 ==> Substring(line, i, end - 1) == line[i..end]
  {
  }

  lemma FirstSpread(line: string, i: nat, words: seq<string>, gaps: seq<string>)
    requires |words| == |gaps| > 0 && i <= |line| && line[i..] == Spread(words, gaps)
    ensures var end := i + |words[0]|;
            var next := end + |gaps[0]|;
            && next <= |line| && line[i..end] == words[0] && line[end..next] == gaps[0]
            && line[next..] == Spread(words[1..], gaps[1..])
  {
    hide Spread;
    SpreadStep(words, gaps);
    ThreeInLine(line, i, words[0], gaps[0], Spread(words[1..], gaps[1..]));
  }

  lemma SpreadStep(words: seq<string>, gaps: seq<string>)
    requires |words| == |gaps| > 0
    ensures Spread(words, gaps) == words[0] + gaps[0] + Spread(words[1..], gaps[1..])
  {
  }

  lemma ThreeInLine(line: string, i: nat, a: string, b: string, c: string)
    requires i <= |line| && line[i..] == a + b + c
    ensures i + |a| + |b| + |c| == |line|
    ensures line[i..i + |a|] == a && line[i + |a|..i + |a| + |b|] == b && line[i + |a| + |b|..] == c
  {
    var rest := line[i..];
    assert rest[0..|a|] == a && rest[|a|..|a| + |b|] == b && rest[|a| + |b|..|rest|] == c;
    assert line[i..|line|] == rest;
    SliceOfSlice(line, i, |line|, 0, |a|);
    SliceOfSlice(line, i, |line|, |a|, |a| + |b|);
    SliceOfSlice(line, i, |line|, |a| + |b|, |rest|);
    assert line[i + |a| + |b|..|line|] == line[i + |a| + |b|..];
  }

  lemma WordChars(line: string, i: nat, end: nat, next: nat)
    requires i <= end <= next <= |line| && BareWord(line[i..end]) && Gap(line[end..next])
    ensures i < end
    ensures forall j :: i <= j < end ==> line[j] != '"' && line[j] != ' ' && line[j] != '\t'
    ensures forall j :: end <= j < next ==> line[j] == ' ' || line[j] == '\t'
  {
    forall j | i <= j < end ensures line[j] in line[i..end] {
      assert line[i..end][j - i] == line[j];
    }
    forall j | end <= j < next ensures line[j] in line[end..next] {
      assert line[end..next][j - end] == line[j];
    }
  }

  lemma {:induction false} SpreadWordsFrom(line: string, i: nat, words: seq<string>, gaps: seq<string>)
    requires Separated(words, gaps) && i <= |line| && line[i..] == Spread(words, gaps)
    requires i > 0 || |words| > 1 || gaps[0] != ""
    ensures Tokens(line, i, i, -1) == words
    decreases |words|
  {
    hide Tokens, Spread, BareWord, Gap;
    var end := i + |words[0]|;
    var next := end + |gaps[0]|;
    FirstSpread(line, i, words, gaps);
    WordChars(line, i, end, next);
    WordEnds(line, i, end);
    if |words| == 1 {
      NothingSpread(words, gaps);
      if gaps[0] != "" {
        ScanGap(line, end, next);
        assert [words[0]] + [] == words;
      }
    } else {
      RestIsSeparated(words, gaps);
      FirstSpread(line, next, words[1..], gaps[1..]);
      WordChars(line, next, next + |words[1]|, next + |words[1]| + |gaps[1]|);
      ScanGap(line, end, next);
      SpreadWordsFrom(line, next, words[1..], gaps[1..]);
      assert [words[0]] + words[1..] == words;
    }
  }

  lemma NothingSpread(words: seq<string>, gaps: seq<string>)
    requires |words| == |gaps| == 1
    ensures Spread(words[1..], gaps[1..]) == "" && words == [words[0]]
  {
  }

  lemma RestIsSeparated(words: seq<string>, gaps: seq<string>)
    requires Separated(words, gaps) && |words| > 1
    ensures Separated(words[1..], gaps[1..]) && words[1..][0] == words[1] && gaps[1..][0] == gaps[1]
  {
    hide BareWord, Gap;
  }

  // Words with runs of spaces and tabs between them, and maybe behind the last one, are
  // what the scanner returns; one lone word needs something behind it.
  lemma SpreadWordsAreTokens(words: seq<string>, gaps: seq<string>)
    requires Separated(words, gaps) && (|words| > 1 || gaps[0] != "")
    ensures Tokens(Spread(words, gaps), 0, 0, -1) == words
  {
    hide Tokens, Spread;
    var line := Spread(words, gaps);
    assert line[0..] == line;
    SpreadWordsFrom(line, 0, words, gaps);
  }

  // In particular one space or one tab.
  lemma OneTabSeparates(a: string, b: string)
    requires BareWord(a) && BareWord(b)
    ensures Tokens(a + "\t" + b, 0, 0, -1) == [a, b]
    ensures Tokens(a + " " + b, 0, 0, -1) == [a, b]
  {
    hide Tokens;
    TwoWords(a, "\t", b);
    TwoWords(a, " ", b);
  }

  lemma TwoWords(a: string, gap: string, b: string)
    requires BareWord(a) && BareWord(b) && Gap(gap) && gap != ""
    ensures Tokens(a + gap + b, 0, 0, -1) == [a, b]
  {
    hide Tokens, Gap, BareWord;
    var words, gaps := [a, b], [gap, ""];
    EmptyGap();
    assert words[1..] == [b] && gaps[1..] == [""] && words[1..][1..] == [] && gaps[1..][1..] == [];
    assert Spread([b], [""]) == b + "" + "";
    assert Spread(words, gaps) == a + gap + b;
    SpreadWordsAreTokens(words, gaps);
  }

  lemma EmptyGap()
    ensures Gap("")
  {
  }

  // ----- where the scanner goes its own way -----

  // Inside a quote that is not closed nothing is found.
  lemma {:induction false} OpenQuoteFindsNothing(line: string, i: nat, start: nat, quote: nat)
    requires quote < i <= |line| && start <= i
    requires forall j :: i <= j < |line| ==> line[j] != '"'
    ensures Tokens(line, i, start, quote) == []
    decreases |line| - i
  {
    if i < |line| {
      OpenQuoteFindsNothing(line, i + 1, start, quote);
    }
  }

  lemma UnclosedQuoteIsLost(text: string)
    requires '"' !in text
    ensures Tokens("\"" + text, 0, 0, -1) == []
  {
    hide Tokens;
    var line := "\"" + text;
    QuoteOpens(line, 0);
    forall j | 1 <= j < |line| ensures line[j] != '"' {
      assert line[j] == text[j - 1];
      assert text[j - 1] in text;
    }
    OpenQuoteFindsNothing(line, 1, 0, 0);
  }

  lemma QuoteClosesAnywhere(line: string, close: nat, start: nat, quote: nat)
    requires quote < close < |line| && start <= close + 1 && line[close] == '"'
    ensures close + 1 < |line| && line[close + 1] != ' ' ==>
              Tokens(line, close, start, quote)
              == NonEmpty(line[quote + 1..close]) + Tokens(line, close + 1, close + 1, -1)
  {
    hide NonEmpty;
  }

  // Text directly in front of a quote is lost.
  lemma TextBeforeQuoteIsLost(text: string, quoted: string)
    requires BareWord(text) && '"' !in quoted
    ensures Tokens(text + ("\"" + quoted + "\""), 0, 0, -1) == NonEmpty(quoted)
  {
    hide Tokens, NonEmpty;
    var line := text + ("\"" + quoted + "\"");
    var open := |text|;
    var close := open + |quoted| + 1;
    assert line[0..open] == text && line[open..open] == "";
    EmptyGap();
    WordChars(line, 0, open, open);
    assert line[open..open + |quoted| + 2] == "\"" + quoted + "\"";
    BetweenQuotes(line, open, quoted);
    WordEnds(line, 0, open);
    QuoteOpensAnywhere(line, open, 0);
    ScanQuoted(line, open + 1, close, 0, open);
    QuoteCloses(line, close, 0, open);
  }

  lemma QuoteOpensAnywhere(line: string, i: nat, start: nat)
    requires i < |line| && start <= i && line[i] == '"'
    ensures Tokens(line, i, start, -1) == Tokens(line, i + 1, start, i)
  {
  }

  // Text directly behind a quote is the next token; so is text behind a quote and a tab,
  // with the tab in front, because only a space is skipped there.
  lemma TextBehindQuote(quoted: string, text: string)
    requires '"' !in quoted && |text| > 0 && text[0] != ' ' && text[0] != '"'
    requires forall j :: 0 < j < |text| ==> text[j] != '"' && text[j] != ' ' && text[j] != '\t'
    ensures Tokens("\"" + quoted + "\"" + text, 0, 0, -1) == NonEmpty(quoted) + [text]
  {
    hide Tokens, NonEmpty;
    var line := "\"" + quoted + "\"" + text;
    var close := |quoted| + 1;
    TextInLine("\"" + quoted + "\"", text);
    BetweenQuotes(line, 0, quoted);
    QuoteOpens(line, 0);
    ScanQuoted(line, 1, close, 0, 0);
    QuoteClosesAnywhere(line, close, 0, 0);
    WordEnds(line, close + 1, |line|);
  }

  lemma TextInLine(front: string, text: string)
    ensures var line := front + text;
            && |line| == |front| + |text| && line[0..|front|] == front && line[|front|..|line|] == text
            && forall j :: |front| <= j < |line| ==> line[j] == text[j - |front|]
  {
  }

  // A blank at the very beginning of a line belongs to the first token.
  lemma LeadingBlankSticks(blank: char, first: string, second: string)
    requires (blank == ' ' || blank == '\t') && BareWord(first) && BareWord(second)
    ensures Tokens([blank] + first + " " + second, 0, 0, -1) == [[blank] + first, second]
  {
    hide Tokens;
    var line := [blank] + first + " " + second;
    var end := 1 + |first|;
    assert line[1..end] == first && line[end..end + 1] == " " && line[end + 1..|line|] == second;
    EmptyGap();
    assert line[|line|..|line|] == "";
    WordChars(line, 1, end, end + 1);
    WordChars(line, end + 1, |line|, |line|);
    WordEnds(line, 0, end);
    ScanGap(line, end, end + 1);
    WordEnds(line, end + 1, |line|);
    assert line[0..end] == [blank] + first;
  }
}
