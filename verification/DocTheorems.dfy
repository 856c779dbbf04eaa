/** What reading a comment keeps: its text, its examples, and prose fit to be translated. */
module DocTheorems {
  import opened CommentRules
  import opened DocBlock
  import opened Examples
  import opened Lists
  import opened Markers
  import opened Protect
  import opened Rebuild
  import opened Text
  import opened Wrappers

  // ----- every line, white space aside

  /** The three readings of a line hold the same text, and the bare one is trimmed. */
  ghost predicate Agrees(line: Line) {
    && Trimmed(line.content)
    && NonWs(line.written) == NonWs(line.content)
    && (line.example.Some? ==> NonWs(line.example.value) == NonWs(line.content))
  }

  lemma StripTrimmed(line: string, block: bool, first: bool)
    ensures Trimmed(StripMarkers(line, block, first))
    ensures NonWs(AfterMarkers(line, block, first)) == NonWs(StripMarkers(line, block, first))
  {
    hide NonWs, IsWhitespace;
    var t := AfterMarkers(line, block, first);
    NonWsTrim(t);
    AfterMarkersEnds(line, block, first);
    TrimStartIs(t);
    assert TrimStart(t) != "" ==> TrimStart(t)[|TrimStart(t)| - 1] == t[|t| - 1];
  }

  lemma AfterMarkersEnds(line: string, block: bool, first: bool)
    ensures var t := AfterMarkers(line, block, first); t == "" || !IsWhitespace(t[|t| - 1])
  {
    hide IsWhitespace, TrimEnd, TrimStart, Trim, StripOneSpace, StripStar, StripCloser, StripOpener, StripLineMarker;
    var content := Trim(line);
    var bare :=
      if block then
        var closed := StripCloser(if first then StripOpener(content) else content);
        if first then closed else StripStar(closed)
      else StripLineMarker(content);
    TrimEndIs(StripOneSpace(bare));
  }

  lemma LinesAgree(raw: string, rules: Rules, i: nat)
    requires i < |LinesOf(raw, rules)|
    ensures Agrees(LinesOf(raw, rules)[i])
  {
    hide NonWs, AfterMarkers, StripMarkers, Marked, Written, Lines, TrimStart;
    var lines, block := Lines(raw), StartsWith(TrimStart(raw), "/*");
    StripTrimmed(lines[i], block, i == 0);
    WrittenSameText(lines, block, i);
  }

  lemma AsExampleAgrees(line: Line, mode: Mode)
    requires Agrees(line) && AsExample(line, mode).Some?
    ensures NonWs(AsExample(line, mode).value) == NonWs(line.content)
  {
    hide NonWs, LeadingTag, IsFence;
  }

  lemma ExampleItemFull(written: string)
    ensures Full(ExampleItem(written)) == NonWs(written)
  {
    hide NonWs, ExampleComment;
    if ExampleComment(written).Some? { ExampleCommentSplits(written); }
  }

  lemma LineLeadSplits(content: string, tags: bool)
    requires LineLead(content, tags).Some?
    ensures var (lead, prose) := LineLead(content, tags).value; Splits(content, lead, prose)
  {
    hide LeadOf, MarkerLead;
    if tags { LeadSplits(content); } else { MarkerLeadSplits(content); }
  }

  /** A line's item holds all of the line. */
  lemma ItemKeepsLine(line: Line, mode: Mode, tags: bool)
    requires Agrees(line)
    ensures Full(ItemOf(line, mode, tags)) == NonWs(line.content)
  {
    if AsExample(line, mode).Some? {
      AsExampleAgrees(line, mode);
      ExampleItemFull(AsExample(line, mode).value);
    } else if line.content == "" {
    } else {
      if LineLead(line.content, tags).Some? { LineLeadSplits(line.content, tags); }
      EmptyKeeps();
      hide NonWs, AsExample, LineLead;
    }
  }

  /** The lines of a comment with its syntax off, white space aside. */
  ghost function Stripped(raw: string, rules: Rules): (r: seq<string>)
    ensures |r| == |LinesOf(raw, rules)|
  {
    var lines := LinesOf(raw, rules);
    seq(|lines|, i requires 0 <= i < |lines| => NonWs(lines[i].content))
  }

  lemma FullIsStripped(raw: string, rules: Rules)
    ensures FullAll(ItemsOf(raw, rules)) == Stripped(raw, rules)
  {
    hide ItemOf, NonWs, ModeAt, LinesOf, Full;
    var lines, items := LinesOf(raw, rules), ItemsOf(raw, rules);
    forall i | 0 <= i < |lines| ensures FullAll(items)[i] == Stripped(raw, rules)[i] {
      LinesAgree(raw, rules, i);
      ItemKeepsLine(lines[i], ModeAt(lines, rules.ReadsDocTags(), i), rules.ReadsDocTags());
    }
  }

  // ----- the comment as a whole

  /** Item `i` is a comment in an example that repeats the lead of the comment line above it. */
  predicate Repeats(items: seq<Item>, i: nat)
    requires i < |items|
  {
    Joins(items, i) && items[i].lead != ""
  }

  /** A lead that is not empty is seen: it holds a comment marker. */
  ghost predicate LeadsShow(items: seq<Item>) {
    forall i :: 0 <= i < |items| && items[i].Words? && items[i].lead != "" ==> NonWs(items[i].lead) != ""
  }

  lemma {:induction false} FlatShorter(a: seq<string>, b: seq<string>)
    requires |a| == |b| && forall i :: 0 <= i < |a| ==> |a[i]| <= |b[i]|
    ensures |Flat(a)| <= |Flat(b)|
    ensures (exists i :: 0 <= i < |a| && |a[i]| < |b[i]|) ==> |Flat(a)| < |Flat(b)|
  {
    if a != [] {
      var k := |a| - 1;
      FlatShorter(a[..k], b[..k]);
      if i :| 0 <= i < |a| && |a[i]| < |b[i]| {
        assert i < k ==> |a[..k][i]| < |b[..k][i]|;
      }
    }
  }

  /** Adding up what the lines add gives all they hold exactly when none of them repeats a lead. */
  lemma AddedIsFull(items: seq<Item>)
    requires LeadsShow(items)
    ensures Flat(AddedAll(items)) == Flat(FullAll(items)) <==> forall i :: 0 <= i < |items| ==> !Repeats(items, i)
  {
    hide NonWs, Flat;
    EmptyKeeps();
    var a, b := AddedAll(items), FullAll(items);
    forall i | 0 <= i < |items|
      ensures |a[i]| <= |b[i]| && (Repeats(items, i) <==> |a[i]| < |b[i]|) && (!Repeats(items, i) ==> a[i] == b[i])
    {
    }
    FlatShorter(a, b);
    if forall i :: 0 <= i < |items| ==> !Repeats(items, i) {
      assert a == b;
    } else {
      var i :| 0 <= i < |items| && Repeats(items, i);
      assert |a[i]| < |b[i]|;
    }
  }

  lemma ExampleLeadShows(written: string)
    requires ExampleComment(written).Some?
    ensures NonWs(ExampleComment(written).value.0) != ""
  {
    hide TrimStart, Trim, TwoLetters;
    var lead := ExampleComment(written).value.0;
    var indentation := |written| - |TrimStart(written)|;
    assert lead[indentation] == '/';
    NonWsCut(lead, indentation);
    assert lead[indentation..][0] == '/';
    NonWsStep(lead[indentation..]);
    hide NonWs;
  }

  lemma ItemsShow(lines: seq<Line>, tags: bool, n: nat)
    requires n <= |lines|
    ensures LeadsShow(ItemsUpTo(lines, tags, n))
  {
    hide NonWs, ExampleComment, AsExample, LineLead, ModeAt;
    forall i | 0 <= i < n && ItemsUpTo(lines, tags, n)[i].Words? && ItemsUpTo(lines, tags, n)[i].lead != ""
      ensures NonWs(ItemsUpTo(lines, tags, n)[i].lead) != ""
    {
      var mode := ModeAt(lines, tags, i);
      if AsExample(lines[i], mode).Some? {
        ExampleLeadShows(AsExample(lines[i], mode).value);
      }
    }
  }

  /** Reading a comment and printing it again keeps all of its text, in order, white space aside -
    * exactly when no comment inside an example goes on under the same lead on the next line. Such
    * a run is one unit, and its lead is printed once. */
  lemma SourceKeepsText(raw: string, rules: Rules)
    ensures NonWs(Source(ShapeOf(raw, rules))) == Flat(Stripped(raw, rules))
      <==> forall i :: 0 <= i < |ItemsOf(raw, rules)| ==> !Repeats(ItemsOf(raw, rules), i)
    ensures NonWs(Source(ShapeOf(raw, rules))) == Flat(AddedAll(ItemsOf(raw, rules)))
  {
    hide NonWs, Flat, Shape, ItemOf, LinesOf, Stripped, Repeats, Source, AddedAll, FullAll, LeadsShow;
    var items := ItemsOf(raw, rules);
    SourceKeepsPieces(Shape(items));
    ShapeAdds(items);
    ItemsShow(LinesOf(raw, rules), rules.ReadsDocTags(), |LinesOf(raw, rules)|);
    AddedIsFull(items);
    FullIsStripped(raw, rules);
  }

  // ----- examples

  /** The lines a comment copies through, in order. */
  function Verbatims(pieces: seq<Piece>): seq<string> {
    if pieces == [] then []
    else
      var k := |pieces| - 1;
      Verbatims(pieces[..k]) + if pieces[k].Verbatim? then [pieces[k].text] else []
  }

  function Copies(items: seq<Item>): seq<string> {
    if items == [] then []
    else
      var k := |items| - 1;
      Copies(items[..k]) + CopyOf(items[k])
  }

  function CopyOf(item: Item): seq<string> {
    match item
    case Copy(text) => [text]
    case Label(lead, prose) => if prose == "" then [TrimEnd(lead)] else []
    case _ => []
  }

  /** The prose a comment hands over, white space aside. */
  function UnitProse(pieces: seq<Piece>): string {
    if pieces == [] then ""
    else
      var k := |pieces| - 1;
      UnitProse(pieces[..k]) + if pieces[k].Unit? then NonWs(pieces[k].text) else ""
  }

  function ItemProse(items: seq<Item>): string {
    if items == [] then "" else ItemProse(items[..|items| - 1]) + ProseOf(items[|items| - 1])
  }

  function ProseOf(item: Item): string {
    match item
    case Label(_, prose) => NonWs(prose)
    case Words(_, text) => NonWs(text)
    case _ => ""
  }

  lemma PiecesLast(pieces: seq<Piece>, piece: Piece)
    ensures Verbatims(pieces + [piece]) == Verbatims(pieces) + if piece.Verbatim? then [piece.text] else []
    ensures UnitProse(pieces + [piece]) == UnitProse(pieces) + if piece.Unit? then NonWs(piece.text) else ""
  {
    hide NonWs;
    assert (pieces + [piece])[..|pieces|] == pieces;
  }

  lemma FeedProjects(f: Folded, item: Item)
    ensures Verbatims(Feed(f, item).Flush()) == Verbatims(f.Flush()) + CopyOf(item)
    ensures UnitProse(Feed(f, item).Flush()) == UnitProse(f.Flush()) + ProseOf(item)
  {
    hide NonWs, TrimEnd, Verbatims, UnitProse;
    EmptyKeeps();
    assert forall pieces: seq<Piece> :: Folded(pieces, None).Flush() == pieces;
    match item
    case Break => PiecesLast(f.Flush(), BlankPiece);
    case Copy(text) => PiecesLast(f.Flush(), Verbatim(text));
    case Label(lead, prose) => PiecesLast(f.Flush(), LabelPiece(lead, prose));
    case Words(lead, text) =>
      if f.paragraph.Some? && f.paragraph.value.0 == lead {
        var before := f.paragraph.value.1;
        PiecesLast(f.pieces, Unit(lead, before));
        PiecesLast(f.pieces, Unit(lead, before + " " + text));
        NonWsAppend(before + " ", text);
        NonWsSpaced(before);
      } else {
        PiecesLast(f.Flush(), Unit(lead, text));
      }
  }

  /** What is copied through is exactly the copied lines and the tags without prose, in order, and
    * the units hold exactly the words of the other lines. */
  lemma {:induction false} ShapeProjects(items: seq<Item>)
    ensures Verbatims(Shape(items)) == Copies(items)
    ensures UnitProse(Shape(items)) == ItemProse(items)
  {
    if items != [] {
      var k := |items| - 1;
      ShapeProjects(items[..k]);
      FeedProjects(Fold(items[..k]), items[k]);
      hide Feed, Verbatims, UnitProse;
    }
  }

  /** A line of an example that is not a whole-line comment is copied as it is written, and no unit
    * holds anything of it. */
  lemma ExamplesStayOut(lines: seq<Line>, tags: bool, i: nat)
    requires i < |lines|
    requires var written := AsExample(lines[i], ModeAt(lines, tags, i));
      written.Some? && ExampleComment(written.value).None?
    ensures var items := ItemsUpTo(lines, tags, |lines|);
      && items[i] == Copy(AsExample(lines[i], ModeAt(lines, tags, i)).value)
      && Verbatims(Shape(items)) == Copies(items[..i]) + [items[i].text] + Copies(items[i + 1..])
      && UnitProse(Shape(items)) == ItemProse(items[..i]) + ItemProse(items[i + 1..])
  {
    hide *;
    CopiedItem(lines, tags, i);
    var items := ItemsUpTo(lines, tags, |lines|);
    ShapeProjects(items);
    ProjectAround(items, i);
    CopyOnly(items[i]);
  }

  lemma CopyOnly(item: Item)
    requires item.Copy?
    ensures CopyOf(item) == [item.text] && ProseOf(item) == ""
  {
  }

  lemma CopiedItem(lines: seq<Line>, tags: bool, i: nat)
    requires i < |lines|
    requires var written := AsExample(lines[i], ModeAt(lines, tags, i));
      written.Some? && ExampleComment(written.value).None?
    ensures var item := ItemsUpTo(lines, tags, |lines|)[i];
      item == Copy(AsExample(lines[i], ModeAt(lines, tags, i)).value) && ProseOf(item) == ""
  {
    hide ModeAt, AsExample, ExampleComment;
  }

  lemma ItemsAppend(a: seq<Item>, b: seq<Item>)
    ensures Copies(a + b) == Copies(a) + Copies(b)
    ensures ItemProse(a + b) == ItemProse(a) + ItemProse(b)
  {
    CopiesAppend(a, b);
    ProseAppend(a, b);
  }

  lemma {:induction false} CopiesAppend(a: seq<Item>, b: seq<Item>)
    ensures Copies(a + b) == Copies(a) + Copies(b)
  {
    hide CopyOf;
    if b == [] {
      assert a + b == a;
    } else {
      var k := |b| - 1;
      CopiesAppend(a, b[..k]);
      assert (a + b)[..|a + b| - 1] == a + b[..k];
    }
  }

  lemma {:induction false} ProseAppend(a: seq<Item>, b: seq<Item>)
    ensures ItemProse(a + b) == ItemProse(a) + ItemProse(b)
  {
    hide ProseOf;
    if b == [] {
      assert a + b == a;
    } else {
      var k := |b| - 1;
      ProseAppend(a, b[..k]);
      assert (a + b)[..|a + b| - 1] == a + b[..k];
    }
  }

  lemma OneItem(item: Item)
    ensures Copies([item]) == CopyOf(item) && ItemProse([item]) == ProseOf(item)
  {
    assert [item][..0] == [];
  }

  lemma ProjectAround(items: seq<Item>, i: nat)
    requires i < |items|
    ensures Copies(items) == Copies(items[..i]) + CopyOf(items[i]) + Copies(items[i + 1..])
    ensures ItemProse(items) == ItemProse(items[..i]) + ProseOf(items[i]) + ItemProse(items[i + 1..])
  {
    hide *;
    CutAround(items, i);
    ItemsAround(items[..i], items[i], items[i + 1..]);
  }

  lemma CutAround(items: seq<Item>, i: nat)
    requires i < |items|
    ensures items == items[..i] + [items[i]] + items[i + 1..]
  {
  }

  lemma ItemsAround(a: seq<Item>, item: Item, b: seq<Item>)
    ensures Copies(a + [item] + b) == Copies(a) + CopyOf(item) + Copies(b)
    ensures ItemProse(a + [item] + b) == ItemProse(a) + ProseOf(item) + ItemProse(b)
  {
    hide *;
    ItemsAppend(a + [item], b);
    ItemsAppend(a, [item]);
    OneItem(item);
  }

  function FenceLines(lines: seq<Line>, n: nat): nat
    requires n <= |lines|
  {
    if n == 0 then 0 else FenceLines(lines, n - 1) + if IsFence(lines[n - 1].content) then 1 else 0
  }

  /** Where a comment has no tags, a line stands inside a fence exactly when the fence lines in
    * front of it are odd in number; nothing else puts it inside an example. */
  lemma {:induction false} FenceParity(lines: seq<Line>, i: nat)
    requires i <= |lines|
    ensures ModeAt(lines, false, i) == if FenceLines(lines, i) % 2 == 1 then InFence else InProse
  {
    hide IsFence, LineLead, OpensExample, LeadingTag;
    if i != 0 {
      FenceParity(lines, i - 1);
    }
  }

  lemma FenceStep(line: Line, mode: Mode, tags: bool)
    ensures NextMode(line, mode, tags) == InFence <==>
      if IsFence(line.content) then mode == InProse else mode == InFence
  {
  }

  /** Fence line `f` was met outside fences and `@example` bodies, and there is none from there to `i`. */
  ghost predicate FencedFrom(lines: seq<Line>, tags: bool, f: nat, i: nat)
    requires i <= |lines|
  {
    f < i && ModeAt(lines, tags, f) == InProse && IsFence(lines[f].content)
    && forall k :: f < k < i ==> !IsFence(lines[k].content)
  }

  lemma FencedNext(lines: seq<Line>, tags: bool, f: nat, i: nat)
    requires i < |lines|
    ensures FencedFrom(lines, tags, f, i + 1) <==>
      (FencedFrom(lines, tags, f, i) && !IsFence(lines[i].content))
      || (f == i && ModeAt(lines, tags, i) == InProse && IsFence(lines[i].content))
  {
    hide ModeAt, IsFence;
  }

  /** Where tags are read or not, a line stands in a fence exactly when a fence line in front of it was
    * met outside fences and `@example` bodies, and there has been none since. */
  lemma {:induction false} FenceRule(lines: seq<Line>, tags: bool, i: nat)
    requires i <= |lines|
    ensures ModeAt(lines, tags, i) == InFence <==> exists f: nat :: FencedFrom(lines, tags, f, i)
  {
    hide IsFence, NextMode, FencedFrom, ModeAt;
    if i == 0 {
      NoMode(lines, tags);
    } else {
      var k := i - 1;
      FenceRule(lines, tags, k);
      ModeNext(lines, tags, k);
      FenceStep(lines[k], ModeAt(lines, tags, k), tags);
      FencedNext(lines, tags, k, k);
      if ModeAt(lines, tags, i) == InFence && !IsFence(lines[k].content) {
        var f: nat :| FencedFrom(lines, tags, f, k);
        FencedNext(lines, tags, f, k);
      }
      if f: nat :| FencedFrom(lines, tags, f, i) {
        FencedNext(lines, tags, f, k);
      }
    }
  }

  lemma NoMode(lines: seq<Line>, tags: bool)
    ensures ModeAt(lines, tags, 0) == InProse
    ensures forall k: nat :: !FencedFrom(lines, tags, k, 0) && !ExampleFrom(lines, k, 0)
  {
  }

  lemma ModeNext(lines: seq<Line>, tags: bool, i: nat)
    requires i < |lines|
    ensures ModeAt(lines, tags, i + 1) == NextMode(lines[i], ModeAt(lines, tags, i), tags)
  {
  }

  lemma ExampleStep(line: Line, mode: Mode)
    ensures NextMode(line, mode, true) == InExample <==>
      (mode != InFence && OpensExample(line.content) && line.example.None?)
      || (mode == InExample && LeadingTag(line.content).None?)
  {
  }

  /** Line `s` is an `@example` tag, itself no indented example, met outside fences, and no line from there
    * to `i` is a tag. */
  ghost predicate ExampleFrom(lines: seq<Line>, s: nat, i: nat)
    requires i <= |lines|
  {
    s < i && ModeAt(lines, true, s) != InFence && OpensExample(lines[s].content) && lines[s].example.None?
    && forall k :: s < k < i ==> LeadingTag(lines[k].content).None?
  }

  lemma ExampleNext(lines: seq<Line>, s: nat, i: nat)
    requires i < |lines|
    ensures ExampleFrom(lines, s, i + 1) <==>
      (ExampleFrom(lines, s, i) && LeadingTag(lines[i].content).None?)
      || (s == i && ModeAt(lines, true, i) != InFence && OpensExample(lines[i].content) && lines[i].example.None?)
  {
    hide ModeAt, OpensExample, LeadingTag;
  }

  /** And in an `@example` body exactly when such a tag in front of it was met outside fences, and no line
    * since has been a tag. */
  lemma {:induction false} ExampleRule(lines: seq<Line>, i: nat)
    requires i <= |lines|
    ensures ModeAt(lines, true, i) == InExample <==> exists s: nat :: ExampleFrom(lines, s, i)
  {
    hide OpensExample, LeadingTag, NextMode, ExampleFrom, ModeAt;
    if i == 0 {
      NoMode(lines, true);
    } else {
      var k := i - 1;
      ExampleRule(lines, k);
      ModeNext(lines, true, k);
      ExampleStep(lines[k], ModeAt(lines, true, k));
      ExampleNext(lines, k, k);
      if ModeAt(lines, true, k) == InExample && LeadingTag(lines[k].content).None? {
        var s: nat :| ExampleFrom(lines, s, k);
        ExampleNext(lines, s, k);
      }
      if s: nat :| ExampleFrom(lines, s, i) {
        ExampleNext(lines, s, k);
      }
    }
  }

  /** The fence lines among the first `n` that are met in an `@example` body, where they open nothing. */
  function FencesInExamples(lines: seq<Line>, tags: bool, n: nat): (r: nat)
    requires n <= |lines|
  {
    if n == 0 then 0
    else FencesInExamples(lines, tags, n - 1)
         + if IsFence(lines[n - 1].content) && ModeAt(lines, tags, n - 1) == InExample then 1 else 0
  }

  /** A line stands in a fence exactly when, of the fence lines in front of it, those met elsewhere are odd
    * in number. */
  lemma {:induction false} FenceParityAnywhere(lines: seq<Line>, tags: bool, i: nat)
    requires i <= |lines|
    ensures FencesInExamples(lines, tags, i) <= FenceLines(lines, i)
    ensures ModeAt(lines, tags, i) == InFence <==> (FenceLines(lines, i) - FencesInExamples(lines, tags, i)) % 2 == 1
  {
    hide IsFence, NextMode;
    if i > 0 {
      FenceParityAnywhere(lines, tags, i - 1);
      FenceStep(lines[i - 1], ModeAt(lines, tags, i - 1), tags);
    }
  }

  // ----- prose fit to be translated

  /** `p` is an end of `content` that does not begin with white space. */
  ghost predicate Tail(p: string, content: string) {
    |p| <= |content| && p == content[|content| - |p|..] && (p == "" || !IsWhitespace(p[0]))
  }

  lemma TailTrimmed(p: string, content: string)
    requires Tail(p, content) && Trimmed(content)
    ensures Trimmed(p)
  {
    hide IsWhitespace;
    assert p != "" ==> p[|p| - 1] == content[|content| - 1];
  }

  lemma TailTrimStart(content: string, n: nat)
    requires n <= |content|
    ensures Tail(TrimStart(content[n..]), content)
  {
    hide IsWhitespace, TrimStart;
    TrimStartIs(content[n..]);
  }

  lemma TailTail(p: string, q: string, content: string)
    requires Tail(p, q) && |q| <= |content| && q == content[|content| - |q|..]
    ensures Tail(p, content)
  {
    hide IsWhitespace;
  }

  lemma TakeLeadTail(content: string, lead: string, rest: string, n: nat)
    requires n <= |rest| && Tail(rest, content)
    ensures Tail(TakeLead(lead, rest, n).1, content)
  {
    hide IsWhitespace, TrimStart;
    TailTrimStart(rest, n);
    TailTail(TrimStart(rest[n..]), rest, content);
  }

  lemma TagLeadTail(content: string)
    requires TagLead(content).Some?
    ensures Tail(TagLead(content).value.1, content)
  {
    hide Tail, TakeLead, TypeAnnotation, FirstWord, TagArgumentsOf, TrimStart, IsWhitespace, DocTag;
    TailTrimStart(content, DocTag(content).value);
    var (tag, rest) := LeadingTag(content).value;
    var arguments := TagArgumentsOf(tag);
    NothingIsTail(content);
    if arguments != OpaqueArgument && arguments != ExampleBody {
      if TypeAnnotation(rest).Some? { TakeLeadTail(content, tag + " ", rest, TypeAnnotation(rest).value); }
      var (lead, prose) := TakeType(tag + " ", rest);
      if prose != "" { TakeLeadTail(content, lead, prose, FirstWord(prose)); }
      var named := arguments == NameArgument || (arguments == TypeOrName && TypeAnnotation(rest).None?);
      var (lead', prose') := if named then TakeName(lead, prose) else (lead, prose);
      HyphenTail(content, lead', prose');
    }
  }

  lemma HyphenTail(content: string, lead: string, rest: string)
    requires Tail(rest, content)
    ensures Tail(TakeHyphen(lead, rest).1, content)
  {
    hide IsWhitespace, TrimStart;
    if StartsWith(rest, "- ") {
      TailTrimStart(rest, 2);
      TailTail(TrimStart(rest[2..]), rest, content);
    }
  }

  lemma NothingIsTail(content: string)
    ensures Tail("", content)
  {
  }

  lemma LeadProseTrimmed(content: string, tags: bool)
    requires Trimmed(content) && LineLead(content, tags).Some?
    ensures Trimmed(LineLead(content, tags).value.1)
  {
    hide Tail, TagLead, Trimmed, TrimStart, MarkerLength;
    if tags && TagLead(content).Some? {
      TagLeadTail(content);
    } else {
      TailTrimStart(content, MarkerLength(content).value + 1);
    }
    TailTrimmed(LineLead(content, tags).value.1, content);
  }

  /** Words are never empty and never begin or end in white space; prose behind a lead may be empty. */
  ghost predicate FitItem(item: Item) {
    match item
    case Words(_, text) => text != "" && Trimmed(text)
    case Label(_, prose) => Trimmed(prose)
    case _ => true
  }

  lemma ItemIsFit(line: Line, mode: Mode, tags: bool)
    requires Trimmed(line.content)
    ensures FitItem(ItemOf(line, mode, tags))
  {
    hide Trimmed, ExampleComment, AsExample, LineLead;
    if AsExample(line, mode).Some? {
      var written := AsExample(line, mode).value;
      if ExampleComment(written).Some? { ExampleCommentSplits(written); }
    } else if line.content != "" && LineLead(line.content, tags).Some? {
      LeadProseTrimmed(line.content, tags);
    }
  }

  ghost predicate FitPieces(pieces: seq<Piece>) {
    forall p :: p in pieces && p.Unit? ==> p.text != "" && Trimmed(p.text)
  }

  lemma FeedFits(f: Folded, item: Item)
    requires FitPieces(f.Flush()) && FitItem(item)
    ensures FitPieces(Feed(f, item).Flush())
  {
    hide IsWhitespace, TrimEnd;
    if item.Words? && f.paragraph.Some? && f.paragraph.value.0 == item.lead {
      assert Unit(item.lead, f.paragraph.value.1) in f.Flush();
      var before, text := f.paragraph.value.1, item.text;
      var joined := before + " " + text;
      assert joined[0] == before[0] && joined[|joined| - 1] == text[|text| - 1];
    }
  }

  lemma {:induction false} FoldFits(items: seq<Item>)
    requires forall i :: 0 <= i < |items| ==> FitItem(items[i])
    ensures FitPieces(Shape(items))
  {
    hide FitItem, Feed, FitPieces;
    if items == [] {
      NothingFits();
    } else {
      var k := |items| - 1;
      FoldFits(items[..k]);
      FeedFits(Fold(items[..k]), items[k]);
    }
  }

  lemma NothingFits()
    ensures Shape([]) == [] && FitPieces([])
  {
  }

  /** Every unit of a comment is prose with something in it and no white space around it. */
  lemma ShapeFits(raw: string, rules: Rules)
    ensures FitPieces(ShapeOf(raw, rules))
  {
    hide ItemOf, ModeAt, LinesOf, FitPieces, NonWs, FitItem, Shape;
    var lines, items := LinesOf(raw, rules), ItemsOf(raw, rules);
    forall i | 0 <= i < |items| ensures FitItem(items[i]) {
      LinesAgree(raw, rules, i);
      ItemIsFit(lines[i], ModeAt(lines, rules.ReadsDocTags(), i), rules.ReadsDocTags());
    }
    FoldFits(items);
  }
}
