/** A comment read into pieces: an item for each line, and the items folded. */
module DocBlock {
  import opened CommentRules
  import opened Examples
  import opened Markers
  import opened Protect
  import opened Text
  import opened Wrappers

  datatype Piece = BlankPiece | Verbatim(text: string) | Unit(lead: string, text: string)

  // ----- one line at a time

  /** A line as the walk sees it: bare, bare but indented, and as an indented example if it is one. */
  datatype Line = Line(content: string, written: string, example: Option<string>)

  datatype Mode = InProse | InFence | InExample

  /** What one line contributes. `Words` joins the line above when their leads agree. */
  datatype Item = Break | Copy(text: string) | Label(lead: string, prose: string) | Words(lead: string, text: string)

  /** A line of an example: copied through, unless it is nothing but a comment. */
  function ExampleItem(written: string): Item {
    var comment := ExampleComment(written);
    if comment.None? then Copy(written) else Words(comment.value.0, comment.value.1)
  }

  function LineLead(content: string, tags: bool): Option<(string, string)> {
    if tags then LeadOf(content) else MarkerLead(content)
  }

  predicate OpensExample(content: string) {
    LeadingTag(content).Some? && TagArgumentsOf(LeadingTag(content).value.0) == ExampleBody
  }

  /** Whether a line belongs to an example, and how it is written in it. */
  function AsExample(line: Line, mode: Mode): Option<string> {
    if mode == InExample && LeadingTag(line.content).None? then Some(line.written)
    else if mode == InFence || IsFence(line.content) then Some(line.written)
    else line.example
  }

  function ItemOf(line: Line, mode: Mode, tags: bool): Item {
    if AsExample(line, mode).Some? then ExampleItem(AsExample(line, mode).value)
    else if line.content == "" then Break
    else
      var lead := LineLead(line.content, tags);
      if lead.Some? then Label(lead.value.0, lead.value.1) else Words("", line.content)
  }

  function NextMode(line: Line, mode: Mode, tags: bool): Mode {
    if mode == InExample && LeadingTag(line.content).None? then InExample
    else if mode == InFence || IsFence(line.content) then
      if !IsFence(line.content) then InFence
      else if mode == InFence then InProse else InFence
    else if line.example.Some? || line.content == "" || LineLead(line.content, tags).None? then InProse
    else if tags && OpensExample(line.content) then InExample
    else InProse
  }

  /** The mode in front of line `i`. */
  function ModeAt(lines: seq<Line>, tags: bool, i: nat): Mode
    requires i <= |lines|
  {
    if i == 0 then InProse else NextMode(lines[i - 1], ModeAt(lines, tags, i - 1), tags)
  }

  function ItemsUpTo(lines: seq<Line>, tags: bool, n: nat): (r: seq<Item>)
    requires n <= |lines|
    ensures |r| == n
  {
    seq(n, i requires 0 <= i < n => ItemOf(lines[i], ModeAt(lines, tags, i), tags))
  }

  // ----- items folded into pieces

  /** The pieces closed so far, and the paragraph being accumulated. */
  datatype Folded = Folded(pieces: seq<Piece>, paragraph: Option<(string, string)>)
  {
    function Flush(): seq<Piece> {
      pieces + if paragraph.None? then [] else [Unit(paragraph.value.0, paragraph.value.1)]
    }
  }

  function LabelPiece(lead: string, prose: string): Piece {
    if prose == "" then Verbatim(TrimEnd(lead)) else Unit(lead, prose)
  }

  function Feed(f: Folded, item: Item): Folded {
    match item
    case Break => Folded(f.Flush() + [BlankPiece], None)
    case Copy(text) => Folded(f.Flush() + [Verbatim(text)], None)
    case Label(lead, prose) => Folded(f.Flush() + [LabelPiece(lead, prose)], None)
    case Words(lead, text) =>
      if f.paragraph.Some? && f.paragraph.value.0 == lead
      then f.(paragraph := Some((lead, f.paragraph.value.1 + " " + text)))
      else Folded(f.Flush(), Some((lead, text)))
  }

  function Fold(items: seq<Item>): Folded {
    if items == [] then Folded([], None)
    else Feed(Fold(items[..|items| - 1]), items[|items| - 1])
  }

  /** The pieces of a comment. */
  function Shape(items: seq<Item>): seq<Piece> { Fold(items).Flush() }

  // ----- the walk of the source

  ghost function LinesOf(raw: string, rules: Rules): (r: seq<Line>)
    ensures |r| == |Lines(raw)|
  {
    var lines, block := Lines(raw), StartsWith(TrimStart(raw), "/*");
    var examples := ExamplesOf(lines, block);
    seq(|lines|, i requires 0 <= i < |lines| =>
      Line(StripMarkers(lines[i], block, i == 0), AfterMarkers(lines[i], block, i == 0),
           if rules.Indentation? then examples[i] else None))
  }

  ghost function ItemsOf(raw: string, rules: Rules): seq<Item> {
    var lines := LinesOf(raw, rules);
    ItemsUpTo(lines, rules != FencedUntagged, |lines|)
  }

  /** The shape of the comment written as `raw`, read under `rules`. */
  ghost function ShapeOf(raw: string, rules: Rules): seq<Piece> { Shape(ItemsOf(raw, rules)) }

  method FlushParagraph(f: Folded) returns (r: Folded)
    ensures r == Folded(f.Flush(), None)
  {
    r := f;
    if f.paragraph.Some? {
      r := Folded(f.pieces + [Unit(f.paragraph.value.0, f.paragraph.value.1)], None);
    }
  }

  method CopyExampleLine(f: Folded, written: string) returns (r: Folded)
    ensures r == Feed(f, ExampleItem(written))
  {
    hide ExampleComment;
    var comment := ExampleComment(written);
    if comment.None? {
      r := FlushParagraph(f);
      r := Folded(r.pieces + [Verbatim(written)], None);
      return;
    }
    var (lead, text) := comment.value;
    if f.paragraph.Some? && f.paragraph.value.0 == lead {
      r := f.(paragraph := Some((lead, f.paragraph.value.1 + " " + text)));
    } else {
      r := FlushParagraph(f);
      r := Folded(r.pieces, Some((lead, text)));
    }
  }

  /** A line that is part of no example: a break, a line with a lead of its own, or plain prose. */
  method ReadProse(f: Folded, content: string, tags: bool) returns (r: Folded, example: bool)
    ensures r == Feed(f, if content == "" then Break
                         else if LineLead(content, tags).Some?
                         then Label(LineLead(content, tags).value.0, LineLead(content, tags).value.1)
                         else Words("", content))
    ensures example <==> content != "" && LineLead(content, tags).Some? && tags && OpensExample(content)
  {
    hide LeadOf, MarkerLead, LeadingTag, TagArgumentsOf;
    example := false;
    if content == "" {
      r := FlushParagraph(f);
      r := Folded(r.pieces + [BlankPiece], None);
      return;
    }
    var lead := if tags then LeadOf(content) else MarkerLead(content);
    if lead.Some? {
      var tagged := LeadingTag(content);
      example := tags && tagged.Some? && TagArgumentsOf(tagged.value.0) == ExampleBody;
      r := FlushParagraph(f);
      r := Folded(r.pieces + [LabelPiece(lead.value.0, lead.value.1)], None);
      return;
    }
    if f.paragraph.Some? && f.paragraph.value.0 == "" {
      r := f.(paragraph := Some(("", f.paragraph.value.1 + " " + content)));
    } else {
      r := FlushParagraph(f);
      r := Folded(r.pieces, Some(("", content)));
    }
  }

  function ModeOf(fenced: bool, example: bool): Mode {
    if example then InExample else if fenced then InFence else InProse
  }

  /** One turn of the walk: the two flags are never both set, and stand for the mode. */
  method ReadLine(f: Folded, line: Line, tags: bool, fenced: bool, example: bool)
    returns (r: Folded, fenced': bool, example': bool)
    requires !(fenced && example)
    ensures r == Feed(f, ItemOf(line, ModeOf(fenced, example), tags))
    ensures !(fenced' && example')
    ensures ModeOf(fenced', example') == NextMode(line, ModeOf(fenced, example), tags)
  {
    hide LeadingTag, IsFence, LineLead, OpensExample, Feed, ExampleItem;
    fenced', example' := fenced, example;
    if example {
      if LeadingTag(line.content).Some? {
        example' := false;
      } else {
        r := CopyExampleLine(f, line.written);
        return;
      }
    }
    var fenceLine := IsFence(line.content);
    if fenced || fenceLine {
      if fenceLine {
        fenced' := !fenced;
      }
      r := CopyExampleLine(f, line.written);
      return;
    }
    if line.example.Some? {
      r := CopyExampleLine(f, line.example.value);
      return;
    }
    r, example' := ReadProse(f, line.content, tags);
  }

  lemma NothingRead(lines: seq<Line>, tags: bool)
    ensures Fold(ItemsUpTo(lines, tags, 0)) == Folded([], None) && ModeAt(lines, tags, 0) == InProse
  {
  }

  lemma OneRead(lines: seq<Line>, tags: bool, i: nat)
    requires i < |lines|
    ensures Fold(ItemsUpTo(lines, tags, i + 1))
         == Feed(Fold(ItemsUpTo(lines, tags, i)), ItemOf(lines[i], ModeAt(lines, tags, i), tags))
    ensures ModeAt(lines, tags, i + 1) == NextMode(lines[i], ModeAt(lines, tags, i), tags)
  {
    hide Feed, ItemOf, NextMode;
    assert ItemsUpTo(lines, tags, i + 1)[..i] == ItemsUpTo(lines, tags, i);
  }

  method Parse(raw: string, rules: Rules) returns (pieces: seq<Piece>)
    ensures pieces == ShapeOf(raw, rules)
  {
    hide Feed, ItemOf, NextMode, StripMarkers, AfterMarkers, ExamplesOf, Lines, Fold, ItemsUpTo, ModeAt, TrimStart;
    var lines, block := Lines(raw), StartsWith(TrimStart(raw), "/*");
    var examples: seq<Option<string>> := [];
    if rules.Indentation? {
      examples := FindExamples(lines, block);
    }
    var tags := rules.ReadsDocTags();
    ghost var all := LinesOf(raw, rules);
    var f, fenced, example := Folded([], None), false, false;
    NothingRead(all, tags);
    for index := 0 to |lines|
      invariant !(fenced && example)
      invariant ModeOf(fenced, example) == ModeAt(all, tags, index)
      invariant f == Fold(ItemsUpTo(all, tags, index))
    {
      var line := Line(StripMarkers(lines[index], block, index == 0), AfterMarkers(lines[index], block, index == 0),
                       if index < |examples| then examples[index] else None);
      assert line == all[index];
      OneRead(all, tags, index);
      f, fenced, example := ReadLine(f, line, tags, fenced, example);
    }
    f := FlushParagraph(f);
    pieces := f.pieces;
  }
}
