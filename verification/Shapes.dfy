/** Lines of a comment, and the pieces they are gathered into: which begin one, and which join the one above. */
module Shapes {
  import opened DocBlock
  import opened Markers
  import opened Preserve
  import opened Rebuild
  import opened Sentence
  import opened Text
  import opened Wrappers

  // ----- lines

  /** Each line with its ending behind it. */
  function Ended(lines: seq<string>, ends: seq<string>): string
    requires |ends| == |lines|
  {
    if lines == [] then "" else lines[0] + ends[0] + Ended(lines[1..], ends[1..])
  }

  /** Line feeds end lines, with a carriage return in front or none; the last line may end with the text. */
  ghost predicate Endings(lines: seq<string>, ends: seq<string>) {
    && |ends| == |lines|
    && forall i :: 0 <= i < |lines| ==>
         && '\n' !in lines[i]
         && (ends[i] == "\n" ==> lines[i] == "" || lines[i][|lines[i]| - 1] != '\r')
         && (ends[i] == "\n" || ends[i] == "\r\n" || (ends[i] == "" && i == |lines| - 1 && lines[i] != ""))
  }

  lemma EndingsNext(lines: seq<string>, ends: seq<string>)
    requires Endings(lines, ends) && lines != []
    ensures Endings(lines[1..], ends[1..])
  {
    forall i | 0 <= i < |lines| - 1
      ensures lines[1..][i] == lines[i + 1] && ends[1..][i] == ends[i + 1]
    {
    }
  }

  lemma LineEnds(line: string, end: string, rest: string)
    requires '\n' !in line && (end == "\n" || end == "\r\n")
    requires end == "\n" ==> line == "" || line[|line| - 1] != '\r'
    ensures Lines(line + end + rest) == [line] + Lines(rest)
  {
    var raw := line + end + rest;
    var k := |line| + |end| - 1;
    assert raw[k] == '\n' && forall i :: 0 <= i < |line| ==> raw[i] == line[i];
    assert |end| == 2 ==> raw[|line|] == '\r';
    FindIs('\n', raw, k);
    assert raw[..k] == line + end[..|end| - 1] && raw[k + 1..] == rest;
    if |end| == 2 { assert raw[..k] == line + "\r" && (line + "\r")[..|line|] == line; } else { assert raw[..k] == line; }
  }

  lemma LastLine(line: string)
    requires '\n' !in line && line != ""
    ensures Lines(line) == [line]
  {
    FindFirst('\n', line);
  }

  /** A comment is read as its lines, without their endings. */
  lemma {:induction false} LinesAre(lines: seq<string>, ends: seq<string>)
    requires Endings(lines, ends)
    ensures Lines(Ended(lines, ends)) == lines
  {
    if lines != [] {
      EndingsNext(lines, ends);
      LinesAre(lines[1..], ends[1..]);
      hide Lines;
      assert lines == [lines[0]] + lines[1..];
      if ends[0] == "" {
        assert |lines| == 1 && Ended(lines[1..], ends[1..]) == "";
        LastLine(lines[0]);
        assert lines[0] + "" + "" == lines[0];
      } else {
        LineEnds(lines[0], ends[0], Ended(lines[1..], ends[1..]));
      }
    }
  }

  /** Every text is lines with endings. */
  lemma {:induction false} EndingsOf(raw: string) returns (lines: seq<string>, ends: seq<string>)
    ensures Endings(lines, ends) && raw == Ended(lines, ends)
    decreases |raw|
  {
    if raw == "" {
      lines, ends := [], [];
    } else {
      var line, end, rest := FirstLine(raw);
      var l, e := EndingsOf(rest);
      lines, ends := [line] + l, [end] + e;
      assert lines[1..] == l && ends[1..] == e;
      hide Ended;
      assert end == "" ==> l == [] by { if end == "" && l != [] { EndedSomething(l, e); } }
      forall i | 0 < i < |lines| ensures lines[i] == l[i - 1] && ends[i] == e[i - 1] {
      }
    }
  }

  lemma FirstLine(raw: string) returns (line: string, end: string, rest: string)
    requires raw != ""
    ensures raw == line + end + rest && '\n' !in line && |rest| < |raw|
    ensures end == "\n" ==> line == "" || line[|line| - 1] != '\r'
    ensures end == "\n" || end == "\r\n" || (end == "" && rest == "" && line != "")
  {
    FindFirst('\n', raw);
    var at := Find('\n', raw);
    if at.None? {
      line, end, rest := raw, "", "";
    } else {
      var k := at.value;
      rest := raw[k + 1..];
      if k > 0 && raw[k - 1] == '\r' {
        line, end := raw[..k - 1], "\r\n";
      } else {
        line, end := raw[..k], "\n";
      }
    }
  }

  lemma EndedSomething(lines: seq<string>, ends: seq<string>)
    requires Endings(lines, ends) && lines != []
    ensures Ended(lines, ends) != ""
  {
    assert lines[0] + ends[0] != "";
  }

  /** Lines joined again are the same lines. */
  lemma {:induction false} JoinedLines(lines: seq<string>)
    requires lines != [] && lines[|lines| - 1] != ""
    requires forall i :: 0 <= i < |lines| ==> '\n' !in lines[i] && (lines[i] == "" || lines[i][|lines[i]| - 1] != '\r')
    ensures Lines(JoinLines(lines)) == lines
  {
    var ends := seq(|lines|, i requires 0 <= i < |lines| => if i < |lines| - 1 then "\n" else "");
    LinesAre(lines, ends);
    JoinIsEnded(lines, ends);
  }

  lemma {:induction false} JoinIsEnded(lines: seq<string>, ends: seq<string>)
    requires |ends| == |lines| && lines != [] && ends[|lines| - 1] == ""
    requires forall i :: 0 <= i < |lines| - 1 ==> ends[i] == "\n"
    ensures JoinLines(lines) == Ended(lines, ends)
  {
    if |lines| == 1 {
      assert Ended(lines[1..], ends[1..]) == "" && lines[0] + "" + "" == lines[0];
    } else {
      JoinIsEnded(lines[1..], ends[1..]);
      JoinFront(lines);
      hide JoinLines;
      assert lines[0] + "\n" + JoinLines(lines[1..]) == Ended(lines, ends);
    }
  }

  lemma {:induction false} JoinFront(lines: seq<string>)
    requires |lines| > 1
    ensures JoinLines(lines) == lines[0] + "\n" + JoinLines(lines[1..])
  {
    var k := |lines| - 1;
    var tail := lines[1..];
    assert tail[..k - 1] == lines[..k][1..];
    if k == 1 {
      assert lines[..1] == [lines[0]] && tail == [lines[1]];
    } else {
      JoinFront(lines[..k]);
      assert JoinLines(tail) == JoinLines(tail[..k - 1]) + "\n" + lines[k];
    }
  }

  // ----- pieces

  /** The piece a line comes to on its own. */
  function PieceOf(item: Item): Piece {
    match item
    case Break => BlankPiece
    case Copy(text) => Verbatim(text)
    case Label(lead, prose) => if prose == "" then Verbatim(TrimEnd(lead)) else Unit(lead, prose)
    case Words(lead, text) => Unit(lead, text)
  }

  lemma OneItem(item: Item)
    ensures Shape([item]) == [PieceOf(item)]
  {
    assert [item][..0] == [];
    assert Fold([]) == Folded([], None);
    assert Fold([item]) == Feed(Folded([], None), item);
  }

  lemma FeedBehind(before: seq<Piece>, f: Folded, item: Item)
    ensures var g := Feed(f, item);
      Feed(Folded(before + f.pieces, f.paragraph), item) == Folded(before + g.pieces, g.paragraph)
  {
    hide TrimEnd;
    assert before + (f.Flush() + [BlankPiece]) == before + f.Flush() + [BlankPiece];
    assert Folded(before + f.pieces, f.paragraph).Flush() == before + f.Flush();
    match item
    case Copy(text) => assert before + (f.Flush() + [Verbatim(text)]) == before + f.Flush() + [Verbatim(text)];
    case Label(lead, prose) =>
      assert before + (f.Flush() + [LabelPiece(lead, prose)]) == before + f.Flush() + [LabelPiece(lead, prose)];
    case _ =>
  }

  /** Two lists of lines whose neighbours do not join. */
  predicate Apart(a: seq<Item>, b: seq<Item>) {
    a != [] && b != [] && a[|a| - 1].Words? && b[0].Words? ==> a[|a| - 1].lead != b[0].lead
  }

  lemma {:induction false} FoldBehind(a: seq<Item>, b: seq<Item>)
    requires Apart(a, b) && b != []
    ensures Fold(a + b) == Folded(Fold(a).Flush() + Fold(b).pieces, Fold(b).paragraph)
    decreases |b|
  {
    var k := |b| - 1;
    assert (a + b)[..|a + b| - 1] == a + b[..k];
    FoldOpen(a);
    if k == 0 {
      assert a + b[..0] == a && b == [b[0]];
      hide Fold, TrimEnd;
      FoldOne(b[0]);
      FeedApart(Fold(a), b[0]);
      FoldLast(a + b);
    } else {
      FoldBehind(a, b[..k]);
      FoldLast(a + b);
      FoldLast(b);
      hide Fold, Feed;
      FeedBehind(Fold(a).Flush(), Fold(b[..k]), b[k]);
    }
  }

  lemma FoldLast(items: seq<Item>)
    requires items != []
    ensures Fold(items) == Feed(Fold(items[..|items| - 1]), items[|items| - 1])
  {
  }

  lemma FoldOne(item: Item)
    ensures Fold([item]) == Feed(Folded([], None), item)
  {
    assert [item][..0] == [];
  }

  lemma FeedApart(f: Folded, item: Item)
    requires item.Words? && f.paragraph.Some? ==> f.paragraph.value.0 != item.lead
    ensures var g := Feed(Folded([], None), item);
      Feed(f, item) == Folded(f.Flush() + g.pieces, g.paragraph)
  {
    hide TrimEnd;
    assert Folded([], None).Flush() == [];
  }

  /** Lines that do not join are gathered apart. */
  lemma ShapeApart(a: seq<Item>, b: seq<Item>)
    requires Apart(a, b)
    ensures Shape(a + b) == Shape(a) + Shape(b)
  {
    hide Fold;
    if b == [] {
      assert a + b == a;
      NoShape();
    } else {
      FoldBehind(a, b);
    }
  }

  lemma NoShape()
    ensures Shape([]) == []
  {
  }

  function Run(lead: string, texts: seq<string>): (r: seq<Item>)
    ensures |r| == |texts|
  {
    seq(|texts|, i requires 0 <= i < |texts| => Words(lead, texts[i]))
  }

  /** Lines of prose under one lead are one unit, a space between two. */
  lemma {:induction false} RunIsOneUnit(lead: string, texts: seq<string>)
    requires texts != []
    ensures Shape(Run(lead, texts)) == [Unit(lead, Weave(texts, Spaces(|texts| - 1)))]
    ensures Fold(Run(lead, texts)) == Folded([], Some((lead, Weave(texts, Spaces(|texts| - 1)))))
  {
    var k := |texts| - 1;
    var items := Run(lead, texts);
    if k == 0 {
      FoldOne(items[0]);
      assert items == [items[0]] && texts == [texts[0]];
      WeaveOne(texts[0]);
    } else {
      RunIsOneUnit(lead, texts[..k]);
      assert items[..k] == Run(lead, texts[..k]);
      FoldLast(items);
      hide Fold, Weave;
      WeaveLast(texts, Spaces(k));
      assert Spaces(k)[..k - 1] == Spaces(k - 1);
    }
  }

  /** An empty line between two paragraphs stays between them, whatever they are. */
  lemma EmptyLineStays(a: seq<Item>, b: seq<Item>)
    ensures Shape(a + [Break] + b) == Shape(a) + [BlankPiece] + Shape(b)
  {
    hide Shape;
    ShapeApart(a + [Break], b);
    ShapeApart(a, [Break]);
    OneItem(Break);
  }
}
