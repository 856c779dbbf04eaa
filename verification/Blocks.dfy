/** What the blocks of a file are, said of the comments: which are in one, which share one, and what it reads. */
module Blocks {
  import opened Runs
  import opened Sentence

  /** Words to translate, and no instruction to a tool. */
  predicate HasWords(u: Alphabet, a: Comment) {
    !a.directive && exists i :: 0 <= i < |a.body| && u.alphanumeric(a.body[i])
  }

  predicate IsLine(a: Comment) { a.style in {LineStyle, DocLineStyle} }

  /** A line comment that opens or closes an example. */
  predicate IsFenceLine(a: Comment) { IsLine(a) && "```" <= a.body }

  /** Two line comments, each alone on its line, on neighbouring lines, in one column and with one marker. */
  predicate Follows(a: Comment, b: Comment) {
    && IsLine(a) && IsLine(b) && a.ownLine && b.ownLine
    && b.startLine == a.endLine + 1 && a.column == b.column && a.marker == b.marker
  }

  lemma SaysSo(u: Alphabet, a: Comment, b: Comment)
    ensures a.IsTranslatable(u) <==> HasWords(u, a)
    ensures a.OpensOrClosesAFence() <==> IsFenceLine(a)
    ensures a.ContinuesInto(b) <==> Follows(a, b)
  {
  }

  /** A block is comments that follow one another, has words, and neither begins nor ends on a comment without
    * them that is no fence line. */
  ghost predicate IsBlock(u: Alphabet, c: seq<Comment>, cut: Cut) {
    && cut.lo < cut.hi <= |c|
    && (forall i :: cut.lo < i < cut.hi ==> Follows(c[i - 1], c[i]))
    && (HasWords(u, c[cut.lo]) || IsFenceLine(c[cut.lo]))
    && (HasWords(u, c[cut.hi - 1]) || IsFenceLine(c[cut.hi - 1]))
    && exists i :: cut.lo <= i < cut.hi && HasWords(u, c[i])
  }

  lemma GoodIsBlock(u: Alphabet, c: seq<Comment>, cut: Cut)
    requires Good(u, c, cut)
    ensures IsBlock(u, c, cut)
  {
    hide HasWords, Follows, IsFenceLine, Comment.IsTranslatable, Comment.ContinuesInto, Comment.OpensOrClosesAFence;
    forall i | cut.lo < i < cut.hi ensures Follows(c[i - 1], c[i]) { SaysSo(u, c[i - 1], c[i]); }
    SaysSo(u, c[cut.lo], c[cut.hi - 1]);
    SaysSo(u, c[cut.hi - 1], c[cut.lo]);
    var i :| cut.lo <= i < cut.hi && c[i].IsTranslatable(u);
    SaysSo(u, c[i], c[i]);
  }

  /** The blocks are those stretches; every comment with words is in one, and two neighbours in blocks are in
    * the same one exactly when the second follows the first. */
  lemma BlocksAre(u: Alphabet, c: seq<Comment>)
    ensures Sorted(Cuts(u, c), |c|)
    ensures forall k :: 0 <= k < |Cuts(u, c)| ==> IsBlock(u, c, Cuts(u, c)[k])
    ensures forall i :: 0 <= i < |c| && HasWords(u, c[i]) ==> Covered(Cuts(u, c), i)
    ensures forall i :: 0 < i < |c| && Covered(Cuts(u, c), i - 1) && Covered(Cuts(u, c), i) ==>
      (Together(Cuts(u, c), i - 1, i) <==> Follows(c[i - 1], c[i]))
  {
    Partition(u, c);
    hide Cuts, Good, IsBlock, Covered, Together, HasWords, Follows, Comment.IsTranslatable, Comment.ContinuesInto;
    forall k | 0 <= k < |Cuts(u, c)| ensures IsBlock(u, c, Cuts(u, c)[k]) { GoodIsBlock(u, c, Cuts(u, c)[k]); }
    forall i | 0 <= i < |c| ensures c[i].IsTranslatable(u) <==> HasWords(u, c[i]) { SaysSo(u, c[i], c[i]); }
    forall i | 0 < i < |c| ensures c[i - 1].ContinuesInto(c[i]) <==> Follows(c[i - 1], c[i]) { SaysSo(u, c[i - 1], c[i]); }
  }

  // ----- the text of a block

  /** The bodies that are not empty, in order. */
  function Bodies(c: seq<Comment>): seq<string> {
    if c == [] then []
    else
      var k := |c| - 1;
      Bodies(c[..k]) + if c[k].body == "" then [] else [c[k].body]
  }

  lemma BodiesSay(c: seq<Comment>)
    ensures forall i :: 0 <= i < |Bodies(c)| ==> Bodies(c)[i] != ""
  {
  }

  /** A block reads as the bodies that are not empty, in order, with single spaces between them. */
  lemma {:induction false} TextIs(c: seq<Comment>)
    ensures JoinBodies(c) == if Bodies(c) == [] then "" else Weave(Bodies(c), Spaces(|Bodies(c)| - 1))
  {
    hide Weave, Spaces, JoinBodies, Bodies;
    if c == [] {
      NoBodies();
    } else {
      var k := |c| - 1;
      TextIs(c[..k]);
      BodiesSay(c[..k]);
      LastBody(c);
      OneBodyMore(Bodies(c[..k]), c[k].body);
    }
  }

  lemma NoBodies()
    ensures JoinBodies([]) == "" && Bodies([]) == []
  {
  }

  lemma LastBody(c: seq<Comment>)
    requires c != []
    ensures var k := |c| - 1;
      var before, body := JoinBodies(c[..k]), c[k].body;
      && Bodies(c) == Bodies(c[..k]) + (if body == "" then [] else [body])
      && JoinBodies(c) == if body == "" then before else if before == "" then body else before + " " + body
  {
    Regrouped(JoinBodies(c[..|c| - 1]), c[|c| - 1].body);
  }

  lemma Regrouped(before: string, body: string)
    ensures "" + "" + body == body && before + (" " + body) == before + " " + body
  {
  }

  lemma OneBodyMore(before: seq<string>, body: string)
    requires forall i :: 0 <= i < |before| ==> before[i] != ""
    ensures before == [] ==> Weave(before + [body], Spaces(0)) == body
    ensures before != [] ==> Weave(before, Spaces(|before| - 1)) != ""
    ensures before != [] ==> Weave(before + [body], Spaces(|before|)) == Weave(before, Spaces(|before| - 1)) + " " + body
    ensures before + [] == before
  {
    hide Weave;
    if before == [] {
      WeaveOne(body);
      assert before + [body] == [body];
    } else {
      WeaveEnd(before, Spaces(|before| - 1));
      assert Spaces(|before|) == Spaces(|before| - 1) + [" "];
      WeaveMore(before, Spaces(|before| - 1), " ", body);
    }
  }
}
