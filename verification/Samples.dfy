/** Three comments, read from the characters they are written with. */
module Samples {
  import opened CommentRules
  import opened DocBlock
  import opened DocTheorems
  import opened GlossPlan
  import opened GlossTheorems
  import opened Lists
  import opened Markers
  import opened Masking
  import opened Preserve
  import opened Protect
  import opened Rebuild
  import opened Sentence
  import opened Text
  import opened Wrappers
  import Fences
  import Runs
  import UnitPlan

  lemma LinesNext(line: string, rest: string)
    requires '\n' !in line && line != "" && line[|line| - 1] != '\r'
    ensures Lines(line + "\n" + rest) == [line] + Lines(rest)
  {
    var raw := line + "\n" + rest;
    FindIs('\n', raw, |line|);
    assert raw[..|line|] == line && raw[|line| + 1..] == rest;
  }

  lemma LinesLast(line: string)
    requires '\n' !in line && line != ""
    ensures Lines(line) == [line]
  {
  }

  // ----- a comment in an example that goes on

  function Fence(): string { "/*```" }
  function First(): string { "// ab" }
  function Second(): string { "// cd*/" }

  /** A block comment that opens a fence, and in it a comment of two lines. */
  function Fenced(): string { Fence() + "\n" + (First() + "\n" + Second()) }

  /** A line with nothing in it that ends one. */
  predicate IsLine(s: string) { s != "" && '\n' !in s && s[|s| - 1] != '\r' }

  lemma ThreeLines(a: string, b: string, c: string)
    requires IsLine(a) && IsLine(b) && IsLine(c)
    ensures Lines(a + "\n" + (b + "\n" + c)) == [a, b, c]
  {
    hide Lines;
    LinesNext(a, b + "\n" + c);
    LinesNext(b, c);
    LinesLast(c);
  }

  lemma OpensBlock(a: string, rest: string)
    requires StartsWith(a, "/*")
    ensures TrimStart(a + rest) == a + rest && StartsWith(TrimStart(a + rest), "/*")
  {
    assert (a + rest)[0] == a[0] == '/' && (a + rest)[1] == a[1] == '*';
  }

  lemma FencedLines()
    ensures Lines(Fenced()) == [Fence(), First(), Second()]
    ensures StartsWith(TrimStart(Fenced()), "/*")
  {
    hide Lines, TrimStart;
    ThreeLines(Fence(), First(), Second());
    OpensBlock(Fence(), "\n" + (First() + "\n" + Second()));
    assert Fence() + "\n" + (First() + "\n" + Second()) == Fence() + ("\n" + (First() + "\n" + Second()));
  }

  /** Text without white space at its ends is trimmed already. */
  lemma Bare(s: string)
    requires s != "" && !IsWhitespace(s[0]) && !IsWhitespace(s[|s| - 1])
    ensures Trim(s) == s && TrimStart(s) == s && TrimEnd(s) == s
  {
    TrimTrimmed(s);
  }

  lemma FencedStripped()
    ensures AfterMarkers(Fence(), true, true) == "```"
    ensures AfterMarkers(First(), true, false) == "// ab"
    ensures AfterMarkers(Second(), true, false) == "// cd"
  {
    hide Trim, TrimStart, TrimEnd;
    Bare(Fence());
    Bare("```");
    Bare(First());
    Bare(Second());
    Bare("// cd");
    assert Fence()[2..] == "```";
    assert Second()[..5] == "// cd";
  }

  lemma FencedReadings()
    ensures var lines := LinesOf(Fenced(), CommentRules.Fenced);
      && |lines| == 3
      && lines[0].content == lines[0].written == "```" && lines[1].written == "// ab" && lines[2].written == "// cd"
      && lines[1].content == "// ab" && lines[2].content == "// cd"
  {
    hide Lines, AfterMarkers, Trim, TrimStart, Examples.ExamplesOf;
    FencedLines();
    FencedStripped();
    Bare("```");
    Bare("// ab");
    Bare("// cd");
  }

  lemma FencedItem(a: char, b: char)
    requires IsAsciiLetter(a) && IsAsciiLetter(b)
    ensures ExampleItem("// " + [a, b]) == Words("// ", [a, b])
  {
    var written, text := "// " + [a, b], [a, b];
    hide Trim, TrimStart, IsAsciiLetter;
    LetterIsBare(a);
    LetterIsBare(b);
    Bare(written);
    Bare(text);
    assert written[0..] == written && written[3..] == text && written[..3] == "// ";
    assert IsAsciiLetter(text[0]) && IsAsciiLetter(text[1]);
    assert written[0] == '/' && written[1] == '/' && written[2] == ' ' && text[0] == a;
  }

  lemma LetterIsBare(c: char)
    requires IsAsciiLetter(c)
    ensures !IsWhitespace(c) && c != '='
  {
  }

  /** Behind a fence that is not closed, each line is read as the example's. */
  lemma BehindAFence(lines: seq<Line>, tags: bool)
    requires |lines| == 3 && IsFence(lines[0].content) && !IsFence(lines[1].content)
    ensures ItemsUpTo(lines, tags, 3) == [ExampleItem(lines[0].written), ExampleItem(lines[1].written), ExampleItem(lines[2].written)]
  {
    hide IsFence, ExampleItem, LeadingTag, LineLead;
    assert ModeAt(lines, tags, 0) == InProse;
    assert ModeAt(lines, tags, 1) == InFence;
    assert ModeAt(lines, tags, 2) == InFence;
  }

  lemma FencedItems()
    ensures ItemsOf(Fenced(), CommentRules.Fenced) == [Copy("```"), Words("// ", "ab"), Words("// ", "cd")]
  {
    hide LinesOf, ExampleItem;
    FencedReadings();
    FencedItem('a', 'b');
    FencedItem('c', 'd');
    FenceIsCopied();
    var lines := LinesOf(Fenced(), CommentRules.Fenced);
    assert lines[1].content[0] == '/';
    BehindAFence(lines, true);
    hide ItemsUpTo;
    assert "// " + ['a', 'b'] == "// ab" && "// " + ['c', 'd'] == "// cd";
  }

  lemma FenceIsCopied()
    ensures ExampleItem("```") == Copy("```")
  {
    hide Trim, TrimStart;
    Bare("```");
    assert "```"[0..] == "```";
  }

  lemma FencedShape()
    ensures ShapeOf(Fenced(), CommentRules.Fenced) == [Verbatim("```"), Unit("// ", "ab cd")]
  {
    hide ItemsOf;
    FencedItems();
    var a, b, c := Copy("```"), Words("// ", "ab"), Words("// ", "cd");
    assert [a, b, c][..2] == [a, b] && [a, b][..1] == [a] && [a][..0] == [];
    assert Fold([a]) == Folded([Verbatim("```")], None);
    assert Fold([a, b]) == Folded([Verbatim("```")], Some(("// ", "ab")));
    assert "ab" + " " + "cd" == "ab cd";
  }

  lemma FencedSource()
    ensures Source([Verbatim("```"), Unit("// ", "ab cd")]) == "```\n// ab cd"
  {
    var pieces := [Verbatim("```"), Unit("// ", "ab cd")];
    var lines := RenderedAll(pieces, []);
    assert "// " + "ab cd" == "// ab cd";
    assert lines == ["```", "// ab cd"];
    assert lines[..1] == ["```"];
  }

  lemma SecondRepeats(items: seq<Item>)
    requires items == [Copy("```"), Words("// ", "ab"), Words("// ", "cd")]
    ensures Repeats(items, 2)
  {
  }

  /** A comment in an example that goes on over two lines under one lead is read as one unit, so its lead
    * is printed once: not all of the comment's text is in its source. */
  lemma RepeatedLeadIsLost()
    ensures Source(ShapeOf(Fenced(), CommentRules.Fenced)) == "```\n// ab cd"
    ensures NonWs(Source(ShapeOf(Fenced(), CommentRules.Fenced))) != Flat(Stripped(Fenced(), CommentRules.Fenced))
  {
    hide ShapeOf, Source, NonWs, Flat, Stripped, ItemsOf, Fenced, Repeats, AddedAll;
    FencedShape();
    FencedSource();
    FencedItems();
    SecondRepeats(ItemsOf(Fenced(), CommentRules.Fenced));
    SourceKeepsText(Fenced(), CommentRules.Fenced);
  }

  // ----- a fence line in an `@example` body

  /** A tag and a fence line, and the two comments a parser makes of them. */
  function Tagged(): string { "// @example" + "\n" + "// ```" }

  function TaggedComments(): seq<Runs.Comment> {
    [Runs.Comment(Runs.LineStyle, Runs.Plain, "@example", 0, 0, 0, 11, 0, true, false),
     Runs.Comment(Runs.LineStyle, Runs.Plain, "```", 1, 1, 12, 18, 0, true, false)]
  }

  lemma TaggedReadings()
    ensures var lines := LinesOf(Tagged(), CommentRules.Fenced);
      && |lines| == 2 && lines[0].content == "@example" && lines[1].content == "```"
      && lines[0].example.None? && lines[1].example.None?
  {
    hide Lines, AfterMarkers, Trim, TrimStart, Examples.ExamplesOf;
    LinesNext("// @example", "// ```");
    LinesLast("// ```");
    NoBlock(Tagged());
    LineStripped("// @example", "@example", true);
    LineStripped("// ```", "```", false);
  }

  lemma LineStripped(line: string, text: string, first: bool)
    requires line == "// " + text && text != "" && Trimmed(text)
    ensures AfterMarkers(line, false, first) == text && TrimStart(text) == text
  {
    hide Trim, TrimStart, TrimEnd, IsWhitespace;
    assert line[0] == '/' && line[1] == '/' && line[2] == ' ' && line[|line| - 1] == text[|text| - 1];
    SlashIsBare();
    Bare(line);
    Bare(text);
    assert line[2..] == " " + text && (" " + text)[1..] == text;
  }

  lemma SlashIsBare()
    ensures !IsWhitespace('/')
  {
  }

  lemma TagOpensExample()
    ensures !IsFence("@example") && IsFence("```") && LeadingTag("```").None?
    ensures OpensExample("@example") && LineLead("@example", true).Some?
  {
  }

  lemma ParserIsInAFence(u: Alphabet)
    requires u.alphanumeric('e')
    ensures Runs.FoldTo(u, TaggedComments(), 2) == Runs.Fold([], 0, true)
  {
    hide IsFence, OpensExample, LineLead, LeadingTag;
    TagOpensExample();
    var c := TaggedComments();
    assert c[0].body[1] == 'e';
    assert Runs.FoldTo(u, c, 0) == Runs.Fold([], 0, false);
    assert Runs.FoldTo(u, c, 1) == Runs.Fold([], 0, false);
  }

  lemma ReaderIsInAnExample(lines: seq<Line>)
    requires |lines| == 2 && lines[0].content == "@example" && lines[1].content == "```"
    requires lines[0].example.None? && lines[1].example.None?
    ensures ModeAt(lines, true, 2) == InExample
  {
    hide IsFence, OpensExample, LineLead, LeadingTag;
    TagOpensExample();
    assert ModeAt(lines, true, 1) == InExample;
  }

  /** Behind these two lines a fence is open for the parser and none is for the reader, which is in the
    * tag's example. */
  lemma FenceInExample(u: Alphabet)
    requires u.alphanumeric('e')
    ensures var c, lines := TaggedComments(), LinesOf(Tagged(), CommentRules.Fenced);
      && Runs.FoldTo(u, c, 2) == Runs.Fold([], 0, true)
      && Fences.LinesOfRun(c, 0, 2, lines)
      && ModeAt(lines, true, 2) == InExample
  {
    hide LinesOf, IsFence, Runs.FoldTo, ModeAt, Tagged;
    TaggedReadings();
    TagOpensExample();
    ParserIsInAFence(u);
    ReaderIsInAnExample(LinesOf(Tagged(), CommentRules.Fenced));
  }

  // ----- prose that names its own spans

  function X0(): string { "X0Q" }
  function X1(): string { "X1Q" }

  /** A line comment that mentions two placeholders, the second first. */
  function Swapping(): string { "// X1Q X0Q" }

  lemma NamesAre()
    ensures X0() == Placeholder(0) && X1() == Placeholder(1)
  {
    assert Decimal(0) == "" + "0" && Decimal(1) == "" + "1";
  }

  lemma SwappingStripped()
    ensures AfterMarkers(Swapping(), false, true) == "X1Q X0Q" && TrimStart("X1Q X0Q") == "X1Q X0Q"
  {
    hide Trim, TrimStart, TrimEnd;
    var raw, text := Swapping(), "X1Q X0Q";
    Bare(raw);
    Bare(text);
    assert raw[0] == '/' && raw[1] == '/' && raw[2] == ' ';
    assert raw[2..] == " X1Q X0Q" && raw[2..][1..] == text;
  }

  lemma PlainWords(line: Line, tags: bool)
    requires line.content != "" && line.content[0] == 'X' && line.example.None?
    ensures ItemOf(line, InProse, tags) == Words("", line.content)
  {
  }

  lemma SwappingItem()
    ensures ItemsOf(Swapping(), CommentRules.Fenced) == [Words("", "X1Q X0Q")]
  {
    hide Trim, TrimStart, AfterMarkers, Lines, Examples.ExamplesOf, ItemOf;
    SwappingStripped();
    LinesLast(Swapping());
    NoBlock(Swapping());
    var lines := LinesOf(Swapping(), CommentRules.Fenced);
    assert |lines| == 1 && lines[0].content == "X1Q X0Q";
    PlainWords(lines[0], true);
    assert ModeAt(lines, true, 0) == InProse;
  }

  lemma NoBlock(s: string)
    requires |s| >= 2 && s[0] == '/' && s[1] == '/'
    ensures !StartsWith(TrimStart(s), "/*")
  {
  }

  lemma SwappingShape()
    ensures ShapeOf(Swapping(), CommentRules.Fenced) == [Unit("", "X1Q X0Q")]
  {
    hide ItemsOf;
    SwappingItem();
    var item := Words("", "X1Q X0Q");
    assert [item][..0] == [];
    assert Fold([item]) == Folded([], Some(("", "X1Q X0Q")));
  }

  lemma SpaceIsNoSpan(rest: string, previous: char)
    requires rest != "" && rest[0] == ' ' && IsWordCharacter(previous)
    ensures ProtectedSpan(rest, Some(previous)).None?
  {
    NoPlaceholder(rest);
  }

  lemma NameIsASpan(n: nat, rest: string, previous: Option<char>)
    requires n <= 1
    ensures ProtectedSpan(Placeholder(n) + rest, previous) == Some((|Placeholder(n)|, PlaceholderSpan))
  {
    hide Placeholder;
    PlaceholderReadsBack(n, rest);
  }

  lemma SwappingParts(x0: string, x1: string)
    requires x0 == Placeholder(0) && x1 == Placeholder(1)
    ensures Parts(x1 + (" " + x0), None)
         == [Hidden(Preserved(x1, PlaceholderSpan)), Copied(' '), Hidden(Preserved(x0, PlaceholderSpan))]
  {
    hide Parts, ProtectedSpan, Placeholder;
    LastIsQ(1);
    var t1, t2, t3 := x1 + (" " + x0), " " + x0, x0;
    NameIsASpan(1, " " + x0, None);
    PartsStep(t1, None);
    assert t1[..|x1|] == x1 && t1[|x1|..] == t2 && t1[|x1| - 1] == 'Q';
    SpaceIsNoSpan(t2, 'Q');
    PartsStep(t2, Some('Q'));
    assert t2[1..] == t3;
    assert x0 + "" == x0;
    NameIsASpan(0, "", Some(' '));
    PartsStep(t3, Some(' '));
    assert t3[..|x0|] == x0 && t3[|x0|..] == "";
    NoParts(Some(t3[|x0| - 1]));
  }

  lemma LastIsQ(n: nat)
    ensures Placeholder(n) != "" && Placeholder(n)[|Placeholder(n)| - 1] == 'Q'
  {
  }

  lemma NoParts(previous: Option<char>)
    ensures Parts("", previous) == []
  {
  }

  lemma SwappingMasked(x0: string, x1: string)
    requires x0 == Placeholder(0) && x1 == Placeholder(1)
    ensures var m := Mask(x1 + (" " + x0)); m.masked == x0 + (" " + x1) && Table(m.preserved) == [x1, x0]
  {
    hide Parts, Render, Spans, Written, Placeholder;
    SwappingParts(x0, x1);
    var a, b, c := Hidden(Preserved(x1, PlaceholderSpan)), Copied(' '), Hidden(Preserved(x0, PlaceholderSpan));
    NothingRendered(2);
    assert [a] + ([b] + ([c] + [])) == [a, b, c];
    PartStep(c, [], 1);
    PartStep(b, [c] + [], 1);
    PartStep(a, [b] + ([c] + []), 0);
    assert x1 + "" == x1 && [' '] + x1 == " " + x1;
    assert Spans([a, b, c]) == [Preserved(x1, PlaceholderSpan), Preserved(x0, PlaceholderSpan)];
  }

  lemma NothingRendered(n: nat)
    ensures Render([], n) == "" && Spans([]) == []
  {
  }

  lemma {:induction false} NoCut(u: Alphabet, text: string, cursor: nat)
    requires cursor <= |text| && forall i :: 0 <= i < |text| ==> !IsStop(text[i])
    ensures NextCut(u, text, 0, cursor).None?
    decreases |text| - cursor
  {
    if cursor < |text| { NoCut(u, text, cursor + 1); }
  }

  /** Prose without a stop in it is one sentence. */
  lemma OneSentence(u: Alphabet, text: string)
    requires Solid(text) && forall i :: 0 <= i < |text| ==> !IsStop(text[i])
    ensures Split(u, text) == [text]
  {
    hide NextCut, Trim, IsStop, IsWhitespace;
    NoCut(u, text, 0);
    TrimTrimmed(text);
    assert text[0..|text|] == text;
  }

  /** The unit in the comment, prepared: one masked sentence, whose English is the unit. */
  lemma SwappingUnit(u: Alphabet)
    ensures var unit := UnitPlan.Prepare(u, "X1Q X0Q");
      && unit.sentences == ["X0Q X1Q"] && Table(unit.masked.preserved) == ["X1Q", "X0Q"]
  {
    hide Masking.Mask, Split, Placeholder;
    NamesAre();
    SwappingMasked(X0(), X1());
    assert X1() + (" " + X0()) == "X1Q X0Q" && X0() + (" " + X1()) == "X0Q X1Q";
    NoStops("X0Q X1Q");
    OneSentence(u, "X0Q X1Q");
  }

  lemma NoStops(s: string)
    requires s == "X0Q X1Q"
    ensures Solid(s) && forall i :: 0 <= i < |s| ==> !IsStop(s[i])
  {
  }

  lemma OneJoined(s: string)
    requires Solid(s)
    ensures Join([s]) == s
  {
    hide IsWhitespace, WantsSpace;
    Sentence.JoinLast([s]);
    AppendSolid("", s);
    NothingWantsSpace();
    assert [s][..0] == [];
  }

  /** What feeding a lone sentence's English back makes of its unit. */
  lemma FedBack(u: Alphabet)
    ensures var unit := UnitPlan.Prepare(u, "X1Q X0Q");
      && UnitPlan.English(Table(unit.masked.preserved), unit.sentences) == ["X1Q X0Q"]
      && UnitPlan.RestoreUnit(unit, ["X1Q X0Q"]) == "X0Q X1Q"
  {
    hide UnitPlan.Prepare, Restored, Met, UnmaskFragment, Join, Placeholder;
    SwappingUnit(u);
    NamesAre();
    SwappedBack(X0(), X1());
    assert X0() + " " + X1() == "X0Q X1Q" && X1() + " " + X0() == "X1Q X0Q";
    var unit := UnitPlan.Prepare(u, "X1Q X0Q");
    assert UnitPlan.Unmasked(["X1Q", "X0Q"], unit.sentences, ["X1Q X0Q"]) == ["X0Q X1Q"];
    NoStops("X0Q X1Q");
    OneJoined("X0Q X1Q");
  }

  lemma OneUnit(u: Alphabet, text: string, translation: string)
    requires |UnitPlan.Prepare(u, text).sentences| == 1
    ensures var plan := Plan([Unit("", text)], [UnitPlan.Prepare(u, text)]);
      && Units(plan.pieces) == [text] && |Sentences(plan.units)| == 1
      && Sources(plan.units)
         == UnitPlan.English(Table(plan.units[0].masked.preserved), plan.units[0].sentences)
      && TextsFrom(plan.units, [translation]) == [UnitPlan.RestoreUnit(plan.units[0], [translation])]
  {
    hide UnitPlan.Prepare, UnitPlan.RestoreUnit, UnitPlan.English;
    var unit, piece := UnitPlan.Prepare(u, text), Unit("", text);
    assert [unit][..0] == [] && [piece][..0] == [];
    assert Sentences([unit]) == [] + unit.sentences;
    assert [translation][..0] == [] && [translation][0..] == [translation];
    assert Sources([unit]) == [] + UnitPlan.English(Table(unit.masked.preserved), unit.sentences);
  }

  lemma OneLine(text: string, translation: string)
    requires text != "" && translation != ""
    ensures Source([Unit("", text)]) == text && RebuildText([Unit("", text)], [translation]) == translation
  {
    var pieces := [Unit("", text)];
    assert pieces[..0] == [];
    assert "" + text == text && "" + translation == translation;
    assert RenderedAll(pieces, []) == [text] && RenderedAll(pieces, [translation]) == [translation];
  }

  /** A comment that mentions two placeholders comes back with the two exchanged when the English of its
    * segments is handed in as their translations. */
  lemma NamesAreSwapped(u: Alphabet)
    ensures var plan := PlanFor(u, Swapping(), CommentRules.Fenced);
      Source(plan.pieces) == "X1Q X0Q" && RestoreGloss(plan, Sources(plan.units)) == "X0Q X1Q"
  {
    hide ShapeOf, UnitPlan.Prepare, UnitPlan.RestoreUnit, UnitPlan.English, RebuildText, Sources, TextsFrom, Sentences, Units;
    var text := "X1Q X0Q";
    var plan := PlanFor(u, Swapping(), CommentRules.Fenced);
    SwappingShape();
    SwappingUnit(u);
    OneUnit(u, text, text);
    FedBack(u);
    OneLine(text, "X0Q X1Q");
    assert plan == Plan([Unit("", text)], [UnitPlan.Prepare(u, text)]);
  }
}
