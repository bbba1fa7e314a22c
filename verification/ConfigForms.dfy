// The characters of configuration texts: which texts are accepted, how an entry is
// written, and how a text of one line is read.
module ConfigForms {
  import opened ConfigStore
  import opened ConfigText
  import opened ConfigRoundTrip
  import opened ConfigSaveLoad

  // A text is accepted exactly when it has characters, all of them ASCII blanks or
  // printable, and no letter at index 8192.
  lemma GateDecides(text: string)
    ensures IsAsciiTextConfig(text)
       <==> && text != ""
            && (forall i :: 0 <= i < |text| ==> '\t' <= text[i] <= '\r' || ' ' <= text[i] <= '~')
            && (|text| > 8192 ==> !('a' <= text[8192] <= 'z') && !('A' <= text[8192] <= 'Z'))
  {
  }

  // What is not accepted is not loaded; an accepted text of one character is too short to
  // look for a line break in.
  lemma ShortTextsAndRefusedOnes(text: string)
    ensures !IsAsciiTextConfig(text) ==> Load(text) == NoConfig
    ensures IsAsciiTextConfig(text) ==> (Load(text) == OverRead <==> |text| == 1)
  {
    hide Lines, ParseLines, IsAlpha, IsOtherAscii;
  }

  // ----- an entry in writing -----

  lemma KeySegments(line: ConfigLine)
    requires 1 <= |line.key.Segments()|
    ensures line.key.ToArray2().0 == line.key.Segments()[0]
    ensures line.key.ToArray2().1 == if |line.key.Segments()| > 1 then line.key.Segments()[1] else ""
  {
  }

  lemma PrintedSegmentForm(segment: string)
    requires segment != ""
    ensures PrintSegment(segment) == (if ' ' in segment then "\"" + segment + "\"" else segment) + " "
    ensures PrintSegment("") == ""
  {
  }

  lemma QuotedUnlessCommand(value: string)
    ensures ShouldQuote(value) <==> !(value != "" && value[0] == '+' && ' ' !in value && ';' !in value)
  {
  }

  // A key of one segment and a value: the segment is quoted if it holds a space, the
  // value unless it begins with a plus sign and holds neither space nor semicolon.
  lemma OneSegmentPrinted(line: ConfigLine, key: string, value: string)
    requires line.key.Segments() == [key] && key != "" && line.value.Segments() == [value]
    ensures Joinable(line)
    ensures PrintLine(line)
         == (if ' ' in key then "\"" + key + "\"" else key) + " "
            + (if value != "" && value[0] == '+' && ' ' !in value && ';' !in value then value else "\"" + value + "\"")
  {
    hide PrintSegment, ShouldQuote, PrintLine;
    KeySegments(line);
    PrintedSegmentForm(key);
    QuotedUnlessCommand(value);
    PrintedParts(line);
    QuotedTail(PrintSegment(key), value);
    assert PrintSegment(key) + "" == PrintSegment(key);
  }

  // A key of two or more segments: the first two are written, the others are not.
  lemma TwoSegmentsPrinted(line: ConfigLine, value: string)
    requires |line.key.Segments()| >= 2 && line.value.Segments() == [value]
    requires line.key.Segments()[0] != "" && line.key.Segments()[1] != ""
    ensures Joinable(line)
    ensures var first, second := line.key.Segments()[0], line.key.Segments()[1];
            PrintLine(line)
            == ((if ' ' in first then "\"" + first + "\"" else first) + " ")
               + ((if ' ' in second then "\"" + second + "\"" else second) + " ")
               + (if value != "" && value[0] == '+' && ' ' !in value && ';' !in value then value
                  else "\"" + value + "\"")
  {
    hide PrintSegment, ShouldQuote, PrintLine;
    var first, second := line.key.Segments()[0], line.key.Segments()[1];
    KeySegments(line);
    PrintedSegmentForm(first);
    PrintedSegmentForm(second);
    QuotedUnlessCommand(value);
    PrintedParts(line);
    var key := PrintSegment(first) + PrintSegment(second);
    QuotedTail(PrintSegment(first), "");
    QuotedTail(key, value);
  }

  // Without a value the key stands alone, with no space behind it.
  lemma KeyPrintedAlone(line: ConfigLine, key: string)
    requires line.key.Segments() == [key] && key != "" && line.value.Segments() == []
    ensures Joinable(line)
    ensures PrintLine(line) == if ' ' in key then "\"" + key + "\"" else key
  {
    hide PrintSegment, ShouldQuote, PrintLine;
    KeySegments(line);
    PrintedSegmentForm(key);
    PrintedParts(line);
    var printed := if ' ' in key then "\"" + key + "\"" else key;
    assert "" + PrintSegment(key) + "" == printed + " ";
    DropsLast(printed + " ", printed);
  }

  // ----- a text of one line -----

  lemma OneLine(text: string, separator: string)
    requires IsLineBreak(separator) && '\n' !in text && |separator| <= |text|
    ensures Lines(text, separator) == [text]
  {
    forall p: nat ensures !SeparatorAt(text, separator, p) {
      if p + |separator| <= |text| {
        var last := p + |separator| - 1;
        assert text[p..p + |separator|][|separator| - 1] == text[last];
        assert text[last] in text;
      }
    }
    assert NextSeparator(text, separator, 1) == |text|;
    assert text[0..] == text;
  }

  // Loading an accepted text without line breaks: its tokens are one entry, which keeps
  // the text it was read from, and the line ending is the default one.
  lemma OneLineLoads(text: string)
    requires IsAsciiTextConfig(text) && '\n' !in text && |text| >= 2
    ensures var tokens := Tokens(text, 0, 0, -1);
            var n := |tokens|;
            Load(text)
            == if n == 0 then NoConfig
               else if n == 1 then Loaded([ConfigLine(text, Many(tokens), One(""))], "\r\n")
               else Loaded([ConfigLine(text, Many(tokens[..n - 1]), One(tokens[n - 1]))], "\r\n")
  {
    hide Tokens, Lines, IsAsciiTextConfig;
    OneLine(text, "\r\n");
    OneLine(text, "\n");
    OneLineParses(text);
  }

  lemma OneLineParses(text: string)
    ensures ParseLines([text]) == ParseLine(text)
  {
    hide ParseLine;
    assert [text][..0] == [];
    assert ParseLines([]) == [];
    assert [] + ParseLine(text) == ParseLine(text);
  }
}
