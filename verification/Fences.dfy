/** Fences as blocks are folded and as they are read again. */
module Fences {
  import opened DocBlock
  import opened DocTheorems
  import opened Markers
  import opened Runs
  import opened Sentence

  /** The lines of a comment are those of the run it was folded from, fence line for fence line. */
  ghost predicate LinesOfRun(c: seq<Comment>, from: nat, to: nat, lines: seq<Line>) {
    && from <= to <= |c| && |lines| == to - from
    && forall i :: from <= i < to ==> (IsFence(lines[i - from].content) <==> c[i].OpensOrClosesAFence())
  }

  lemma {:induction false} SameFenceLines(c: seq<Comment>, from: nat, to: nat, lines: seq<Line>, n: nat)
    requires LinesOfRun(c, from, to, lines) && n <= |lines|
    ensures DocTheorems.FenceLines(lines, n) == Runs.FenceLines(c, from, from + n)
  {
    hide IsFence, Comment.OpensOrClosesAFence;
    if n > 0 { SameFenceLines(c, from, to, lines, n - 1); }
  }

  /** At the end of the run under way, the parser's flag says that a fence is open exactly when the reader's
    * mode does - if and only if the fence lines that the reader met in an `@example` body, which open
    * nothing for it, are even in number. Where tags are not read there are none. */
  lemma FencesAgree(u: Alphabet, c: seq<Comment>, n: nat, lines: seq<Line>, tags: bool)
    requires n <= |c| && LinesOfRun(c, FoldTo(u, c, n).from, n, lines)
    ensures (FoldTo(u, c, n).fenced <==> ModeAt(lines, tags, |lines|) == InFence)
      <==> FencesInExamples(lines, tags, |lines|) % 2 == 0
    ensures !tags ==> FencesInExamples(lines, tags, |lines|) == 0
  {
    hide FoldTo, ModeAt, IsFence;
    FencedIsOdd(u, c, n);
    FenceParityAnywhere(lines, tags, |lines|);
    SameFenceLines(c, FoldTo(u, c, n).from, n, lines, |lines|);
    if !tags { NoExamples(lines, |lines|); }
  }

  lemma {:induction false} NoExamples(lines: seq<Line>, n: nat)
    requires n <= |lines|
    ensures FencesInExamples(lines, false, n) == 0
  {
    hide IsFence, ModeAt;
    if n > 0 {
      NoExamples(lines, n - 1);
      FenceParity(lines, n - 1);
    }
  }
}
