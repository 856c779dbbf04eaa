/** A comment's pieces printed again, and what the round through parsing keeps. */
module Rebuild {
  import opened DocBlock
  import opened Lists
  import opened Markers
  import opened Text
  import opened Wrappers

  // ----- printing

  function UnitCount(pieces: seq<Piece>): nat {
    if pieces == [] then 0
    else UnitCount(pieces[..|pieces| - 1]) + if pieces[|pieces| - 1].Unit? then 1 else 0
  }

  /** The texts of the units among the pieces. */
  function Units(pieces: seq<Piece>): (r: seq<string>)
    ensures |r| == UnitCount(pieces)
  {
    if pieces == [] then []
    else
      var k := |pieces| - 1;
      Units(pieces[..k]) + if pieces[k].Unit? then [pieces[k].text] else []
  }

  /** The line of a piece: a unit's own text stands in where there is no translation for it. */
  function Rendered(piece: Piece, translations: seq<string>, unit: nat): string {
    match piece
    case BlankPiece => ""
    case Verbatim(text) => text
    case Unit(lead, text) => lead + if unit < |translations| then translations[unit] else text
  }

  function RenderedAll(pieces: seq<Piece>, translations: seq<string>): (r: seq<string>)
    ensures |r| == |pieces|
  {
    seq(|pieces|, i requires 0 <= i < |pieces| => Rendered(pieces[i], translations, UnitCount(pieces[..i])))
  }

  function DropFront(lines: seq<string>): seq<string> {
    if lines != [] && lines[0] == "" then DropFront(lines[1..]) else lines
  }

  function DropBack(lines: seq<string>): seq<string> {
    if lines != [] && lines[|lines| - 1] == "" then DropBack(lines[..|lines| - 1]) else lines
  }

  function JoinLines(lines: seq<string>): string {
    if lines == [] then ""
    else if |lines| == 1 then lines[0]
    else JoinLines(lines[..|lines| - 1]) + "\n" + lines[|lines| - 1]
  }

  /** The block rebuilt around `translations`, one per unit. */
  function RebuildText(pieces: seq<Piece>, translations: seq<string>): string {
    JoinLines(DropBack(DropFront(RenderedAll(pieces, translations))))
  }

  /** The pieces printed around the units' own texts. */
  function Source(pieces: seq<Piece>): string { RebuildText(pieces, []) }

  method RebuildComment(pieces: seq<Piece>, translations: seq<string>) returns (r: string)
    ensures r == RebuildText(pieces, translations)
  {
    var rendered: seq<string> := [];
    var unit := 0;
    for i := 0 to |pieces|
      invariant |rendered| == i && unit == UnitCount(pieces[..i])
      invariant forall k :: 0 <= k < i ==> rendered[k] == RenderedAll(pieces, translations)[k]
    {
      assert pieces[..i + 1][..i] == pieces[..i];
      rendered := rendered + [Rendered(pieces[i], translations, unit)];
      if pieces[i].Unit? {
        unit := unit + 1;
      }
    }
    assert rendered == RenderedAll(pieces, translations);
    var lines := rendered;
    while lines != [] && lines[0] == ""
      invariant DropFront(lines) == DropFront(rendered)
    {
      lines := lines[1..];
    }
    while lines != [] && lines[|lines| - 1] == ""
      invariant DropBack(lines) == DropBack(DropFront(rendered))
    {
      lines := lines[..|lines| - 1];
    }
    r := JoinLines(lines);
  }

  // ----- white space aside

  function NonWsEach(lines: seq<string>): (r: seq<string>)
    ensures |r| == |lines| && forall i :: 0 <= i < |r| ==> r[i] == NonWs(lines[i])
  {
    seq(|lines|, i requires 0 <= i < |lines| => NonWs(lines[i]))
  }

  lemma {:induction false} JoinKeeps(lines: seq<string>)
    ensures NonWs(JoinLines(lines)) == Flat(NonWsEach(lines))
  {
    EmptyKeeps();
    hide NonWs;
    if lines != [] {
      var k := |lines| - 1;
      JoinKeeps(lines[..k]);
      assert NonWsEach(lines)[..k] == NonWsEach(lines[..k]);
      if k > 0 {
        NonWsAppend(JoinLines(lines[..k]) + "\n", lines[k]);
        NonWsAppend(JoinLines(lines[..k]), "\n");
        NonWsSpace("\n");
      } else {
        assert lines[..0] == [];
      }
    }
  }

  lemma EmptyKeeps()
    ensures NonWs("") == ""
  {
  }

  lemma {:induction false} DropFrontKeeps(lines: seq<string>)
    ensures Flat(NonWsEach(DropFront(lines))) == Flat(NonWsEach(lines))
  {
    hide NonWs;
    if lines != [] && lines[0] == "" {
      EmptyKeeps();
      DropFrontKeeps(lines[1..]);
      assert NonWsEach(lines) == [""] + NonWsEach(lines[1..]);
      FlatAppend([""], NonWsEach(lines[1..]));
    }
  }

  lemma {:induction false} DropBackKeeps(lines: seq<string>)
    ensures Flat(NonWsEach(DropBack(lines))) == Flat(NonWsEach(lines))
  {
    hide NonWs;
    if lines != [] && lines[|lines| - 1] == "" {
      EmptyKeeps();
      DropBackKeeps(lines[..|lines| - 1]);
      assert NonWsEach(lines)[..|lines| - 1] == NonWsEach(lines[..|lines| - 1]);
    }
  }

  /** What a piece holds, white space aside. */
  function PieceText(piece: Piece): string {
    match piece
    case BlankPiece => ""
    case Verbatim(text) => NonWs(text)
    case Unit(lead, text) => NonWs(lead) + NonWs(text)
  }

  function PieceTexts(pieces: seq<Piece>): (r: seq<string>)
    ensures |r| == |pieces|
  {
    seq(|pieces|, i requires 0 <= i < |pieces| => PieceText(pieces[i]))
  }

  lemma SourceKeepsPieces(pieces: seq<Piece>)
    ensures NonWs(Source(pieces)) == Flat(PieceTexts(pieces))
  {
    hide NonWs, Flat, JoinLines, DropFront, DropBack;
    var lines := RenderedAll(pieces, []);
    JoinKeeps(DropBack(DropFront(lines)));
    DropBackKeeps(DropFront(lines));
    DropFrontKeeps(lines);
    EmptyKeeps();
    forall i | 0 <= i < |pieces| ensures NonWsEach(lines)[i] == PieceTexts(pieces)[i] {
      if pieces[i].Unit? { NonWsAppend(pieces[i].lead, pieces[i].text); }
    }
    assert NonWsEach(lines) == PieceTexts(pieces);
  }

  // ----- what each line adds

  /** Item `i` joins the paragraph of the line above it. */
  predicate Joins(items: seq<Item>, i: nat)
    requires i < |items|
  {
    0 < i && items[i].Words? && items[i - 1].Words? && items[i - 1].lead == items[i].lead
  }

  /** All that a line holds, white space aside. */
  function Full(item: Item): string {
    match item
    case Break => ""
    case Copy(text) => NonWs(text)
    case Label(lead, prose) => NonWs(lead) + NonWs(prose)
    case Words(lead, text) => NonWs(lead) + NonWs(text)
  }

  /** What it adds to the gloss: a line that joins the one above does not repeat its lead. */
  function Added(items: seq<Item>, i: nat): string
    requires i < |items|
  {
    if Joins(items, i) then NonWs(items[i].text) else Full(items[i])
  }

  function AddedAll(items: seq<Item>): (r: seq<string>)
    ensures |r| == |items|
  {
    seq(|items|, i requires 0 <= i < |items| => Added(items, i))
  }

  function FullAll(items: seq<Item>): (r: seq<string>)
    ensures |r| == |items|
  {
    seq(|items|, i requires 0 <= i < |items| => Full(items[i]))
  }

  /** A paragraph is open exactly behind a line of words, and carries its lead. */
  lemma FoldOpen(items: seq<Item>)
    ensures var f := Fold(items);
      if items != [] && items[|items| - 1].Words?
      then f.paragraph.Some? && f.paragraph.value.0 == items[|items| - 1].lead
      else f.paragraph.None?
  {
  }

  lemma PieceTextsAppend(a: seq<Piece>, b: seq<Piece>)
    ensures Flat(PieceTexts(a + b)) == Flat(PieceTexts(a)) + Flat(PieceTexts(b))
  {
    hide Flat;
    assert PieceTexts(a + b) == PieceTexts(a) + PieceTexts(b);
    FlatAppend(PieceTexts(a), PieceTexts(b));
  }

  lemma OnePiece(piece: Piece)
    ensures Flat(PieceTexts([piece])) == PieceText(piece)
  {
    assert PieceTexts([piece]) == [PieceText(piece)];
    assert [PieceText(piece)][..0] == [];
  }

  lemma NoPieces()
    ensures Flat(PieceTexts([])) == ""
  {
  }

  /** One more item adds to the text of the pieces what it is said to add. */
  lemma FeedAdds(f: Folded, item: Item)
    ensures var joined := item.Words? && f.paragraph.Some? && f.paragraph.value.0 == item.lead;
      Flat(PieceTexts(Feed(f, item).Flush()))
      == Flat(PieceTexts(f.Flush())) + if joined then NonWs(item.text) else Full(item)
  {
    hide Flat, PieceTexts, NonWs, TrimEnd;
    EmptyKeeps();
    assert forall pieces: seq<Piece> :: Folded(pieces, None).Flush() == pieces;
    match item
    case Break => PieceTextsAppend(f.Flush(), [BlankPiece]); OnePiece(BlankPiece);
    case Copy(text) => PieceTextsAppend(f.Flush(), [Verbatim(text)]); OnePiece(Verbatim(text));
    case Label(lead, prose) =>
      PieceTextsAppend(f.Flush(), [LabelPiece(lead, prose)]);
      OnePiece(LabelPiece(lead, prose));
      NonWsTrim(lead);
    case Words(lead, text) =>
      if f.paragraph.Some? && f.paragraph.value.0 == lead {
        WordsJoin(f.pieces, lead, f.paragraph.value.1, text);
      } else {
        PieceTextsAppend(f.Flush(), [Unit(lead, text)]);
        OnePiece(Unit(lead, text));
      }
  }

  lemma WordsJoin(pieces: seq<Piece>, lead: string, before: string, text: string)
    ensures Flat(PieceTexts(pieces + [Unit(lead, before + " " + text)]))
         == Flat(PieceTexts(pieces + [Unit(lead, before)])) + NonWs(text)
  {
    hide Flat, PieceTexts, NonWs;
    PieceTextsAppend(pieces, [Unit(lead, before)]);
    PieceTextsAppend(pieces, [Unit(lead, before + " " + text)]);
    OnePiece(Unit(lead, before));
    OnePiece(Unit(lead, before + " " + text));
    NonWsAppend(before + " ", text);
    NonWsSpaced(before);
  }

  lemma AddedLast(items: seq<Item>)
    requires items != []
    ensures var k := |items| - 1;
      Flat(AddedAll(items)) == Flat(AddedAll(items[..k])) + Added(items, k)
  {
    hide Full, NonWs;
    var k := |items| - 1;
    assert AddedAll(items)[..k] == AddedAll(items[..k]);
  }

  lemma AddedBehind(items: seq<Item>)
    requires items != []
    ensures var k := |items| - 1;
      var f := Fold(items[..k]);
      var joined := items[k].Words? && f.paragraph.Some? && f.paragraph.value.0 == items[k].lead;
      Added(items, k) == if joined then NonWs(items[k].text) else Full(items[k])
  {
    hide Full, NonWs, Fold;
    FoldOpen(items[..|items| - 1]);
  }

  /** The pieces hold exactly what the lines add. */
  lemma {:induction false} ShapeAdds(items: seq<Item>)
    ensures Flat(PieceTexts(Shape(items))) == Flat(AddedAll(items))
  {
    if items == [] {
      NoPieces();
    } else {
      hide Full, NonWs, Feed, PieceTexts, Flat, AddedAll, Added;
      var k := |items| - 1;
      ShapeAdds(items[..k]);
      AddedBehind(items);
      FeedAdds(Fold(items[..k]), items[k]);
      AddedLast(items);
    }
  }
}
