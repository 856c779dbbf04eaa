/** Folding runs of line comments into blocks. */
module Runs {
  import opened Markers
  import opened Sentence

  datatype Style = LineStyle | BlockStyle | DocLineStyle | DocBlockStyle

  datatype Marker = Plain | InnerDoc | OuterDoc

  datatype Comment = Comment(
    style: Style, marker: Marker, body: string,
    startLine: nat, endLine: nat, startByte: nat, endByte: nat,
    column: nat, ownLine: bool, directive: bool)
  {
    predicate IsTranslatable(u: Alphabet) {
      !directive && exists i :: 0 <= i < |body| && u.alphanumeric(body[i])
    }

    predicate IsLineComment() { style.LineStyle? || style.DocLineStyle? }

    predicate OpensOrClosesAFence() { IsLineComment() && IsFence(body) }

    predicate ContinuesInto(next: Comment) {
      && IsLineComment() && next.IsLineComment()
      && marker == next.marker
      && ownLine && next.ownLine
      && column == next.column
      && endLine + 1 == next.startLine
    }

    /** A comment that a block can begin or end on. */
    predicate Holds(u: Alphabet) { IsTranslatable(u) || OpensOrClosesAFence() }
  }

  datatype Block = Block(style: Style, text: string, startLine: nat, endLine: nat, startByte: nat, endByte: nat)

  // ----- which comments a block is made of

  /** A block, as the range of the comments it is made of. */
  datatype Cut = Cut(lo: nat, hi: nat)

  /** After some comments: the blocks so far, where the run under way begins, and whether it is in a fence. */
  datatype Fold = Fold(cuts: seq<Cut>, from: nat, fenced: bool)

  /** The end of `c[from..to]` without what follows its last comment that holds something. */
  function TrimmedTo(u: Alphabet, c: seq<Comment>, from: nat, to: nat): (r: nat)
    requires from <= to <= |c|
    ensures from <= r <= to
    ensures from < r ==> c[r - 1].Holds(u)
  {
    if from < to && !c[to - 1].Holds(u) then TrimmedTo(u, c, from, to - 1) else to
  }

  predicate AnyTranslatable(u: Alphabet, c: seq<Comment>, from: nat, to: nat)
    requires from <= to <= |c|
  {
    exists i :: from <= i < to && c[i].IsTranslatable(u)
  }

  function Closed(u: Alphabet, c: seq<Comment>, from: nat, to: nat): seq<Cut>
    requires from <= to <= |c|
  {
    var end := TrimmedTo(u, c, from, to);
    if AnyTranslatable(u, c, from, end) then [Cut(from, end)] else []
  }

  /** Comment `i` behind a run that begins at `from` starts another. */
  predicate Breaks(c: seq<Comment>, from: nat, i: nat)
    requires from <= i < |c|
  {
    from == i || !c[i - 1].ContinuesInto(c[i])
  }

  function FoldStep(u: Alphabet, c: seq<Comment>, f: Fold, i: nat): Fold
    requires f.from <= i < |c|
  {
    var g := if Breaks(c, f.from, i) then Fold(f.cuts + Closed(u, c, f.from, i), i, false) else f;
    if c[i].Holds(u) || g.fenced then g.(fenced := if c[i].OpensOrClosesAFence() then !g.fenced else g.fenced)
    else Fold(g.cuts + Closed(u, c, g.from, i), i + 1, false)
  }

  function FoldTo(u: Alphabet, c: seq<Comment>, n: nat): (f: Fold)
    requires n <= |c|
    ensures f.from <= n
  {
    if n == 0 then Fold([], 0, false) else FoldStep(u, c, FoldTo(u, c, n - 1), n - 1)
  }

  function Cuts(u: Alphabet, c: seq<Comment>): seq<Cut> {
    var f := FoldTo(u, c, |c|);
    f.cuts + Closed(u, c, f.from, |c|)
  }

  // ----- what is proved of them

  ghost predicate In(cut: Cut, i: nat) { cut.lo <= i < cut.hi }

  ghost predicate Covered(cuts: seq<Cut>, i: nat) { exists k :: 0 <= k < |cuts| && In(cuts[k], i) }

  ghost predicate Together(cuts: seq<Cut>, i: nat, j: nat) { exists k :: 0 <= k < |cuts| && In(cuts[k], i) && In(cuts[k], j) }

  /** A block is a chain of comments that continue one another, begins and ends on one that holds
    * something, and has something to translate. */
  ghost predicate Good(u: Alphabet, c: seq<Comment>, cut: Cut) {
    && cut.lo < cut.hi <= |c|
    && (forall i :: cut.lo < i < cut.hi ==> c[i - 1].ContinuesInto(c[i]))
    && c[cut.lo].Holds(u) && c[cut.hi - 1].Holds(u)
    && AnyTranslatable(u, c, cut.lo, cut.hi)
  }

  ghost predicate Sorted(cuts: seq<Cut>, n: nat) {
    && (forall k :: 0 <= k < |cuts| ==> cuts[k].lo < cuts[k].hi <= n)
    && (forall j, k :: 0 <= j < k < |cuts| ==> cuts[j].hi <= cuts[k].lo)
  }

  /** Every comment with words in front of `n` is in a block. */
  ghost predicate Covers(u: Alphabet, c: seq<Comment>, cuts: seq<Cut>, n: nat)
    requires n <= |c|
  {
    forall i :: 0 <= i < n && c[i].IsTranslatable(u) ==> Covered(cuts, i)
  }

  /** Neighbours in blocks share one exactly when the one continues into the other. */
  ghost predicate Chained(c: seq<Comment>, cuts: seq<Cut>, n: nat)
    requires n <= |c|
  {
    forall i :: 0 < i < n && Covered(cuts, i - 1) && Covered(cuts, i) ==>
      (Together(cuts, i - 1, i) <==> c[i - 1].ContinuesInto(c[i]))
  }

  ghost predicate Settled(u: Alphabet, c: seq<Comment>, cuts: seq<Cut>, n: nat)
    requires n <= |c|
  {
    && Sorted(cuts, n)
    && (forall k :: 0 <= k < |cuts| ==> Good(u, c, cuts[k]))
    && Covers(u, c, cuts, n)
    && Chained(c, cuts, n)
  }

  /** The run under way is a chain that begins on a comment that holds something. */
  ghost predicate Running(u: Alphabet, c: seq<Comment>, f: Fold, n: nat)
    requires n <= |c|
  {
    && f.from <= n
    && (f.from < n ==> c[f.from].Holds(u))
    && (forall i :: f.from < i < n ==> c[i - 1].ContinuesInto(c[i]))
    && (f.fenced ==> f.from < n)
  }

  /** Nothing joins the run to the comment in front of it. */
  ghost predicate Apart(c: seq<Comment>, f: Fold) {
    0 < f.from < |c| ==> !Covered(f.cuts, f.from - 1) || !c[f.from - 1].ContinuesInto(c[f.from])
  }

  lemma CoveredMore(cuts: seq<Cut>, cut: Cut, i: nat)
    ensures Covered(cuts + [cut], i) <==> Covered(cuts, i) || In(cut, i)
  {
    var more := cuts + [cut];
    if Covered(cuts, i) {
      var k :| 0 <= k < |cuts| && In(cuts[k], i);
      assert In(more[k], i);
    }
    assert more[|cuts|] == cut;
  }

  lemma TogetherMore(cuts: seq<Cut>, cut: Cut, i: nat, j: nat)
    ensures Together(cuts + [cut], i, j) <==> Together(cuts, i, j) || (In(cut, i) && In(cut, j))
  {
    var more := cuts + [cut];
    if Together(cuts, i, j) {
      var k :| 0 <= k < |cuts| && In(cuts[k], i) && In(cuts[k], j);
      assert In(more[k], i) && In(more[k], j);
    }
    assert more[|cuts|] == cut;
  }

  lemma NotBeyond(cuts: seq<Cut>, n: nat, i: nat)
    requires Sorted(cuts, n) && n <= i
    ensures !Covered(cuts, i)
  {
  }

  lemma TranslatableKept(u: Alphabet, c: seq<Comment>, from: nat, to: nat, i: nat)
    requires from <= i < to <= |c| && c[i].Holds(u)
    ensures i < TrimmedTo(u, c, from, to)
  {
  }

  /** Closing the run settles everything in front of `to`. */
  lemma CloseSettles(u: Alphabet, c: seq<Comment>, f: Fold, to: nat)
    requires to <= |c| && f.from <= to && Settled(u, c, f.cuts, f.from) && Running(u, c, f, to) && Apart(c, f)
    ensures Settled(u, c, f.cuts + Closed(u, c, f.from, to), to)
  {
    var end := TrimmedTo(u, c, f.from, to);
    var cuts := f.cuts + Closed(u, c, f.from, to);
    forall i | f.from <= i < to && c[i].IsTranslatable(u) ensures i < end { TranslatableKept(u, c, f.from, to, i); }
    hide Comment.ContinuesInto, Comment.IsTranslatable, Comment.Holds, TrimmedTo;
    if AnyTranslatable(u, c, f.from, end) {
      ClosedCut(u, c, f, to, end);
    } else {
      assert cuts == f.cuts;
      forall i | f.from <= i ensures !Covered(f.cuts, i) { NotBeyond(f.cuts, f.from, i); }
    }
  }

  lemma ClosedCut(u: Alphabet, c: seq<Comment>, f: Fold, to: nat, end: nat)
    requires f.from <= end <= to <= |c| && Settled(u, c, f.cuts, f.from) && Running(u, c, f, to) && Apart(c, f)
    requires AnyTranslatable(u, c, f.from, end) && c[end - 1].Holds(u)
    requires forall i :: f.from <= i < to && c[i].IsTranslatable(u) ==> i < end
    ensures Settled(u, c, f.cuts + [Cut(f.from, end)], to)
  {
    hide Comment.ContinuesInto, Comment.IsTranslatable, Comment.Holds, Covered, Together, Chained;
    var cut := Cut(f.from, end);
    forall i | 0 <= i < to && c[i].IsTranslatable(u) ensures Covered(f.cuts + [cut], i) { CoveredMore(f.cuts, cut, i); }
    ClosedChained(c, f, to, end);
  }

  lemma ClosedChained(c: seq<Comment>, f: Fold, to: nat, end: nat)
    requires f.from < end <= to <= |c| && Sorted(f.cuts, f.from) && Chained(c, f.cuts, f.from) && Apart(c, f)
    requires forall i :: f.from < i < to ==> c[i - 1].ContinuesInto(c[i])
    ensures Chained(c, f.cuts + [Cut(f.from, end)], to)
  {
    hide Comment.ContinuesInto, Covered, Together, Sorted;
    var cut := Cut(f.from, end);
    var cuts := f.cuts + [cut];
    forall i | 0 < i < to && Covered(cuts, i - 1) && Covered(cuts, i)
      ensures Together(cuts, i - 1, i) <==> c[i - 1].ContinuesInto(c[i])
    {
      CoveredMore(f.cuts, cut, i - 1);
      CoveredMore(f.cuts, cut, i);
      TogetherMore(f.cuts, cut, i - 1, i);
      TogetherIsCovered(f.cuts, i - 1, i);
      if f.from <= i { NotBeyond(f.cuts, f.from, i); }
      if f.from < i { NotBeyond(f.cuts, f.from, i - 1); }
    }
  }

  lemma TogetherIsCovered(cuts: seq<Cut>, i: nat, j: nat)
    ensures Together(cuts, i, j) ==> Covered(cuts, i) && Covered(cuts, j)
  {
  }

  // ----- the fold

  ghost predicate Sound(u: Alphabet, c: seq<Comment>, f: Fold, n: nat)
    requires n <= |c|
  {
    Running(u, c, f, n) && Settled(u, c, f.cuts, f.from) && Apart(c, f)
  }

  /** Comment `i` is dropped: nothing in front of `i + 1` changes. */
  lemma DropSettles(u: Alphabet, c: seq<Comment>, cuts: seq<Cut>, i: nat)
    requires i < |c| && Settled(u, c, cuts, i) && !c[i].IsTranslatable(u)
    ensures Settled(u, c, cuts, i + 1) && !Covered(cuts, i)
  {
    hide Comment.ContinuesInto, Comment.IsTranslatable, Comment.Holds, Together;
    NotBeyond(cuts, i, i);
    hide Covered;
  }

  lemma ClosedNothing(u: Alphabet, c: seq<Comment>, cuts: seq<Cut>, i: nat)
    requires i <= |c|
    ensures cuts + Closed(u, c, i, i) == cuts
  {
  }

  /** The fold where comment `i` may start a run of its own. */
  function Opened(u: Alphabet, c: seq<Comment>, f: Fold, i: nat): Fold
    requires f.from <= i < |c|
  {
    if Breaks(c, f.from, i) then Fold(f.cuts + Closed(u, c, f.from, i), i, false) else f
  }

  lemma OpenedSound(u: Alphabet, c: seq<Comment>, f: Fold, i: nat)
    requires i < |c| && Sound(u, c, f, i)
    ensures Sound(u, c, Opened(u, c, f, i), i)
    ensures Opened(u, c, f, i).from < i ==> c[i - 1].ContinuesInto(c[i])
  {
    hide Comment.ContinuesInto, Settled, Closed, Covered, Comment.Holds;
    if Breaks(c, f.from, i) {
      CloseSettles(u, c, f, i);
      if f.from == i { ClosedNothing(u, c, f.cuts, i); }
    }
  }

  lemma StepSound(u: Alphabet, c: seq<Comment>, f: Fold, i: nat)
    requires i < |c| && Sound(u, c, f, i)
    ensures Sound(u, c, FoldStep(u, c, f, i), i + 1)
  {
    hide Comment.ContinuesInto, Settled, Closed, Covered, Comment.IsTranslatable, Comment.OpensOrClosesAFence;
    OpenedSound(u, c, f, i);
    var g := Opened(u, c, f, i);
    if !(c[i].Holds(u) || g.fenced) {
      CloseSettles(u, c, g, i);
      DropSettles(u, c, g.cuts + Closed(u, c, g.from, i), i);
    }
  }

  lemma {:induction false} FoldSound(u: Alphabet, c: seq<Comment>, n: nat)
    requires n <= |c|
    ensures Sound(u, c, FoldTo(u, c, n), n)
  {
    if n > 0 {
      hide Sound, FoldStep;
      FoldSound(u, c, n - 1);
      StepSound(u, c, FoldTo(u, c, n - 1), n - 1);
    } else {
      NothingFolded(u, c);
    }
  }

  lemma NothingFolded(u: Alphabet, c: seq<Comment>)
    ensures Sound(u, c, Fold([], 0, false), 0)
  {
    hide Comment.ContinuesInto, Comment.Holds;
  }

  /** The blocks are an exact partition: sorted and apart; each a chain of comments that continue one
    * another, which begins and ends on one that holds something; every comment with words in one of
    * them; and neighbours in blocks in the same one exactly when the one continues into the other. */
  lemma Partition(u: Alphabet, c: seq<Comment>)
    ensures Settled(u, c, Cuts(u, c), |c|)
  {
    FoldSound(u, c, |c|);
    hide Settled, Closed, FoldTo, Covered, Comment.ContinuesInto;
    CloseSettles(u, c, FoldTo(u, c, |c|), |c|);
  }

  /** In no more than one of them. */
  lemma InOne(cuts: seq<Cut>, n: nat, j: nat, k: nat, i: nat)
    requires Sorted(cuts, n) && j < |cuts| && k < |cuts| && In(cuts[j], i) && In(cuts[k], i)
    ensures j == k
  {
  }

  /** Comments that are sorted and disjoint in the file. */
  ghost predicate InFile(c: seq<Comment>) {
    && (forall i :: 0 <= i < |c| ==> c[i].startByte <= c[i].endByte)
    && (forall i, j :: 0 <= i < j < |c| ==> c[i].endByte <= c[j].startByte)
  }

  // ----- fences

  function FenceLines(c: seq<Comment>, from: nat, to: nat): nat
    requires from <= to <= |c|
  {
    if from == to then 0 else FenceLines(c, from, to - 1) + if c[to - 1].OpensOrClosesAFence() then 1 else 0
  }

  /** The run is in a fence exactly when an odd number of its comments are fence lines. */
  lemma {:induction false} FencedIsOdd(u: Alphabet, c: seq<Comment>, n: nat)
    requires n <= |c|
    ensures var f := FoldTo(u, c, n); f.fenced <==> FenceLines(c, f.from, n) % 2 == 1
  {
    hide Comment.ContinuesInto, Comment.OpensOrClosesAFence, Comment.IsTranslatable, Closed;
    if n > 0 { FencedIsOdd(u, c, n - 1); }
  }

  /** Fence line `i` opens an example that fence line `j` closes: each comment continues into the
    * next, and none between them is a fence line. */
  ghost predicate Example(u: Alphabet, c: seq<Comment>, i: nat, j: nat) {
    && i < j < |c|
    && (forall k :: i < k <= j ==> c[k - 1].ContinuesInto(c[k]))
    && FoldTo(u, c, i + 1).fenced && c[i].OpensOrClosesAFence()
    && (forall k :: i < k < j ==> !c[k].OpensOrClosesAFence())
    && c[j].OpensOrClosesAFence()
  }

  /** A block holds all of `i..j` or none of it. */
  ghost predicate Whole(cuts: seq<Cut>, i: nat, j: nat) {
    forall k :: 0 <= k < |cuts| ==> (cuts[k].lo <= i && j < cuts[k].hi) || cuts[k].hi <= i || j < cuts[k].lo
  }

  lemma {:induction false} StaysFenced(u: Alphabet, c: seq<Comment>, i: nat, j: nat, n: nat)
    requires Example(u, c, i, j) && i < n <= j
    ensures var f := FoldTo(u, c, n); f.fenced && f.from <= i && f.cuts == FoldTo(u, c, i + 1).cuts
  {
    hide Comment.ContinuesInto, Comment.OpensOrClosesAFence, Comment.IsTranslatable, Closed;
    if n == i + 1 {
      FoldSound(u, c, n);
    } else {
      StaysFenced(u, c, i, j, n - 1);
    }
  }

  lemma ClosedWhole(u: Alphabet, c: seq<Comment>, f: Fold, to: nat, i: nat, j: nat)
    requires f.from <= to <= |c| && Whole(f.cuts, i, j) && i < j < to
    requires f.from <= i || j < f.from
    requires c[j].OpensOrClosesAFence()
    ensures Whole(f.cuts + Closed(u, c, f.from, to), i, j)
  {
    if f.from <= i { TranslatableKept(u, c, f.from, to, j); }
  }

  lemma {:induction false} FoldWhole(u: Alphabet, c: seq<Comment>, i: nat, j: nat, n: nat)
    requires Example(u, c, i, j) && j < n <= |c|
    ensures var f := FoldTo(u, c, n); Whole(f.cuts, i, j) && (f.from <= i || j < f.from)
  {
    hide Comment.ContinuesInto, Comment.OpensOrClosesAFence, Comment.IsTranslatable, Closed;
    if n == j + 1 {
      StaysFenced(u, c, i, j, j);
      FoldSound(u, c, j);
    } else {
      FoldWhole(u, c, i, j, n - 1);
      var f := FoldTo(u, c, n - 1);
      ClosedWhole(u, c, f, n - 1, i, j);
      ClosedWhole(u, c, Opened(u, c, f, n - 1), n - 1, i, j);
    }
  }

  /** An example in a fence is never split, and where it says something it is in one block, fences and all. */
  lemma ExampleStaysWhole(u: Alphabet, c: seq<Comment>, i: nat, j: nat)
    requires Example(u, c, i, j)
    ensures Whole(Cuts(u, c), i, j)
    ensures (exists k :: i <= k <= j && c[k].IsTranslatable(u)) ==> Together(Cuts(u, c), i, j)
  {
    hide Comment.ContinuesInto, Comment.OpensOrClosesAFence, Comment.IsTranslatable, Closed, FoldTo, Whole, Together;
    FoldWhole(u, c, i, j, |c|);
    ClosedWhole(u, c, FoldTo(u, c, |c|), |c|, i, j);
    if k :| i <= k <= j && c[k].IsTranslatable(u) {
      WordsCovered(u, c, k);
      WholeTogether(Cuts(u, c), i, j, k);
    }
  }

  lemma WordsCovered(u: Alphabet, c: seq<Comment>, k: nat)
    requires k < |c| && c[k].IsTranslatable(u)
    ensures Covered(Cuts(u, c), k)
  {
    hide Cuts;
    Partition(u, c);
  }

  lemma WholeTogether(cuts: seq<Cut>, i: nat, j: nat, k: nat)
    requires Whole(cuts, i, j) && Covered(cuts, k) && i <= k <= j
    ensures Together(cuts, i, j)
  {
    var m :| 0 <= m < |cuts| && In(cuts[m], k);
    assert In(cuts[m], i) && In(cuts[m], j);
  }

  // ----- the blocks themselves

  /** Bodies with a space between them; an empty one takes no room. */
  function JoinBodies(c: seq<Comment>): string {
    if c == [] then ""
    else
      var k := |c| - 1;
      var before := JoinBodies(c[..k]);
      if c[k].body == "" then before else before + (if before == "" then "" else " ") + c[k].body
  }

  function BlockOf(c: seq<Comment>): Block
    requires c != []
  {
    var first, last := c[0], c[|c| - 1];
    Block(first.style, JoinBodies(c), first.startLine, last.endLine, first.startByte, last.endByte)
  }

  function BlocksOf(c: seq<Comment>, cuts: seq<Cut>): (r: seq<Block>)
    requires InBounds(c, cuts)
    ensures |r| == |cuts|
  {
    seq(|cuts|, k requires 0 <= k < |cuts| => BlockOf(c[cuts[k].lo..cuts[k].hi]))
  }

  /** Blocks of comments that are disjoint in the file are disjoint too, and in order. */
  lemma BlocksDisjoint(u: Alphabet, c: seq<Comment>, j: nat, k: nat)
    requires InFile(c) && j < k < |Cuts(u, c)|
    ensures Sorted(Cuts(u, c), |c|)
    ensures var b := BlocksOf(c, Cuts(u, c)); b[j].startByte <= b[j].endByte <= b[k].startByte
  {
    hide Cuts, Good, Covers, Chained, JoinBodies;
    Partition(u, c);
  }

  /** The blocks a run comes to: one or none. */
  function RunBlocks(u: Alphabet, run: seq<Comment>): seq<Block> {
    var end := TrimmedTo(u, run, 0, |run|);
    if AnyTranslatable(u, run, 0, end) then [BlockOf(run[..end])] else []
  }

  lemma OneBody(comment: Comment)
    ensures JoinBodies([comment]) == comment.body
  {
    assert [comment][..0] == [];
    assert "" + "" + comment.body == comment.body;
  }

  method CloseRun(u: Alphabet, run: seq<Comment>, blocks: seq<Block>) returns (more: seq<Block>)
    ensures more == blocks + RunBlocks(u, run)
  {
    hide Comment.Holds, Comment.IsTranslatable;
    var end := |run|;
    while end > 0 && !run[end - 1].Holds(u)
      invariant 0 <= end <= |run|
      invariant TrimmedTo(u, run, 0, end) == TrimmedTo(u, run, 0, |run|)
    {
      end := end - 1;
    }
    if !AnyTranslatable(u, run, 0, end) {
      return blocks;
    }
    var block := Block(run[0].style, run[0].body, run[0].startLine, run[0].endLine, run[0].startByte, run[0].endByte);
    OneBody(run[0]);
    assert run[..1] == [run[0]];
    for i := 1 to end
      invariant block == BlockOf(run[..i])
    {
      assert run[..i + 1][..i] == run[..i];
      var comment := run[i];
      if comment.body != "" {
        var space := if block.text != "" then " " else "";
        block := block.(text := block.text + space + comment.body);
      }
      block := block.(endLine := comment.endLine, endByte := comment.endByte);
    }
    more := blocks + [block];
  }

  lemma {:induction false} TrimmedSlice(u: Alphabet, c: seq<Comment>, from: nat, to: nat, end: nat)
    requires from <= end <= to <= |c|
    ensures TrimmedTo(u, c[from..to], 0, end - from) == TrimmedTo(u, c, from, end) - from
    decreases end
  {
    hide Comment.Holds;
    if from < end { TrimmedSlice(u, c, from, to, end - 1); }
  }

  lemma RunBlocksAre(u: Alphabet, c: seq<Comment>, cuts: seq<Cut>, from: nat, to: nat)
    requires from <= to <= |c| && InBounds(c, cuts)
    ensures var all := cuts + Closed(u, c, from, to);
      && InBounds(c, all)
      && BlocksOf(c, all) == BlocksOf(c, cuts) + RunBlocks(u, c[from..to])
  {
    hide BlockOf, Comment.IsTranslatable, Comment.Holds, TrimmedTo;
    TrimmedSlice(u, c, from, to, to);
    var run, end := c[from..to], TrimmedTo(u, c, from, to);
    SameWords(u, c, from, to, end);
    assert run[..end - from] == c[from..end];
  }

  lemma SameWords(u: Alphabet, c: seq<Comment>, from: nat, to: nat, end: nat)
    requires from <= end <= to <= |c|
    ensures AnyTranslatable(u, c[from..to], 0, end - from) <==> AnyTranslatable(u, c, from, end)
  {
    hide Comment.IsTranslatable;
    if i :| from <= i < end && c[i].IsTranslatable(u) {
      assert c[from..to][i - from].IsTranslatable(u);
    }
  }

  /** The variables of the loop stand for the fold `f` in front of comment `i`. */
  ghost predicate StandFor(u: Alphabet, c: seq<Comment>, f: Fold, i: nat, run: seq<Comment>, fenced: bool, blocks: seq<Block>) {
    && f.from <= i <= |c|
    && run == c[f.from..i] && fenced == f.fenced
    && InBounds(c, f.cuts) && blocks == BlocksOf(c, f.cuts)
  }

  /** Closing the run leaves what the fold with that run closed stands for, whatever begins at `from`. */
  lemma ClosedStandsFor(u: Alphabet, c: seq<Comment>, f: Fold, i: nat, run: seq<Comment>, fenced: bool, blocks: seq<Block>,
    from: nat)
    requires StandFor(u, c, f, i, run, fenced, blocks) && i <= from <= |c|
    ensures StandFor(u, c, Fold(f.cuts + Closed(u, c, f.from, i), from, false), from, [], false, blocks + RunBlocks(u, run))
  {
    hide Closed, BlocksOf, RunBlocks;
    RunBlocksAre(u, c, f.cuts, f.from, i);
  }

  lemma RunGrows(u: Alphabet, c: seq<Comment>, f: Fold, i: nat, run: seq<Comment>, fenced: bool, blocks: seq<Block>, after: bool)
    requires StandFor(u, c, f, i, run, fenced, blocks) && i < |c|
    ensures StandFor(u, c, f.(fenced := after), i + 1, run + [c[i]], after, blocks)
  {
    hide BlocksOf;
  }

  lemma RunIs(u: Alphabet, c: seq<Comment>, f: Fold, i: nat, run: seq<Comment>, fenced: bool, blocks: seq<Block>)
    requires StandFor(u, c, f, i, run, fenced, blocks) && i < |c|
    ensures fenced == f.fenced
    ensures Breaks(c, f.from, i) <==> !(run != [] && run[|run| - 1].ContinuesInto(c[i]))
  {
    hide Comment.ContinuesInto, BlocksOf;
  }

  method MergeRuns(u: Alphabet, comments: seq<Comment>) returns (blocks: seq<Block>)
    ensures Sorted(Cuts(u, comments), |comments|)
    ensures blocks == BlocksOf(comments, Cuts(u, comments))
  {
    hide Comment.ContinuesInto, Comment.OpensOrClosesAFence, Comment.IsTranslatable, Closed, BlocksOf, RunBlocks, Sorted,
      StandFor, Breaks;
    var run: seq<Comment>, fenced := [], false;
    blocks := [];
    NothingStandsFor(u, comments);
    for i := 0 to |comments|
      invariant StandFor(u, comments, FoldTo(u, comments, i), i, run, fenced, blocks)
    {
      ghost var f := FoldTo(u, comments, i);
      var comment := comments[i];
      RunIs(u, comments, f, i, run, fenced, blocks);
      if !(run != [] && run[|run| - 1].ContinuesInto(comment)) {
        ClosedStandsFor(u, comments, f, i, run, fenced, blocks, i);
        blocks := CloseRun(u, run, blocks);
        run, fenced := [], false;
      }
      ghost var g := Opened(u, comments, f, i);
      RunIs(u, comments, g, i, run, fenced, blocks);
      var fenceLine := comment.OpensOrClosesAFence();
      if comment.IsTranslatable(u) || fenceLine || fenced {
        RunGrows(u, comments, g, i, run, fenced, blocks, if fenceLine then !fenced else fenced);
        if fenceLine {
          fenced := !fenced;
        }
        run := run + [comment];
      } else {
        ClosedStandsFor(u, comments, g, i, run, fenced, blocks, i + 1);
        blocks := CloseRun(u, run, blocks);
        run, fenced := [], false;
      }
    }
    Partition(u, comments);
    ClosedStandsFor(u, comments, FoldTo(u, comments, |comments|), |comments|, run, fenced, blocks, |comments|);
    blocks := CloseRun(u, run, blocks);
    BlocksStandFor(u, comments, Cuts(u, comments), blocks);
  }

  lemma NothingStandsFor(u: Alphabet, c: seq<Comment>)
    ensures StandFor(u, c, FoldTo(u, c, 0), 0, [], false, [])
  {
    NoBlocks(c);
  }

  lemma BlocksStandFor(u: Alphabet, c: seq<Comment>, cuts: seq<Cut>, blocks: seq<Block>)
    requires StandFor(u, c, Fold(cuts, |c|, false), |c|, [], false, blocks)
    ensures InBounds(c, cuts) && blocks == BlocksOf(c, cuts)
  {
  }

  predicate InBounds(c: seq<Comment>, cuts: seq<Cut>) { forall k :: 0 <= k < |cuts| ==> cuts[k].lo < cuts[k].hi <= |c| }

  lemma NoBlocks(c: seq<Comment>)
    ensures BlocksOf(c, []) == []
  {
  }
}
