/** What a search keeps and where it can end, step by step, for every model. */
module BeamTheorems {
  import opened BeamModel
  import opened Lists
  import opened Sorting

  // ----- the ranking

  /** `best` holds the `wanted` best of `ranked`: in order, none invented, none better left out. */
  ghost predicate IsTop(best: seq<Cand>, ranked: seq<Cand>, wanted: nat) {
    && |best| == (if wanted < |ranked| then wanted else |ranked|)
    && (forall i, j :: 0 <= i < j < |best| ==> !Below(best[i].score, best[j].score))
    && multiset(best) <= multiset(ranked)
    && (forall c, i :: c in multiset(ranked) - multiset(best) && 0 <= i < |best| ==> !Below(best[i].score, c.score))
  }

  lemma TopKIsTop(ranked: seq<Cand>, wanted: nat)
    ensures IsTop(TopK(ranked, wanted), ranked, wanted)
  {
    hide Sort;
    SortPermutes(ranked, BestFirst);
    SortSorts(ranked, BestFirst);
    var sorted, best := Sort(ranked, BestFirst), TopK(ranked, wanted);
    assert best == sorted[..|best|];
    FrontIsTop(sorted, |best|);
  }

  /** Of a sorted list, nothing behind the first `n` is better than any of them. */
  lemma FrontIsTop(sorted: seq<Cand>, n: nat)
    requires Sorted(sorted, BestFirst) && n <= |sorted|
    ensures multiset(sorted[..n]) <= multiset(sorted)
    ensures forall i, j :: 0 <= i < j < n ==> !Below(sorted[i].score, sorted[j].score)
    ensures forall c, i :: c in multiset(sorted) - multiset(sorted[..n]) && 0 <= i < n ==> !Below(sorted[i].score, c.score)
  {
    BehindTheFront(sorted, n);
    forall c, i | c in multiset(sorted) - multiset(sorted[..n]) && 0 <= i < n ensures !Below(sorted[i].score, c.score) {
      var j :| n <= j < |sorted| && sorted[j] == c;
      assert !BestFirst(sorted[j], sorted[i]);
    }
    forall i, j | 0 <= i < j < n ensures !Below(sorted[i].score, sorted[j].score) { assert !BestFirst(sorted[j], sorted[i]); }
  }

  lemma BehindTheFront(s: seq<Cand>, n: nat)
    requires n <= |s|
    ensures multiset(s[..n]) <= multiset(s)
    ensures forall c :: c in multiset(s) - multiset(s[..n]) ==> exists j :: n <= j < |s| && s[j] == c
  {
    assert s == s[..n] + s[n..];
    forall c | c in multiset(s) - multiset(s[..n]) ensures exists j :: n <= j < |s| && s[j] == c {
      assert c in multiset(s[n..]);
      var j :| 0 <= j < |s[n..]| && s[n..][j] == c;
      assert s[n + j] == c;
    }
  }

  // ----- how wide a search stays

  lemma {:induction false} CandsDistinct(m: Model, source: seq<Token>, live: seq<Hyp>)
    requires m.Valid() && Started(live)
    ensures Distinct(Cands(m, source, live))
  {
    if live != [] {
      var k := |live| - 1;
      CandsDistinct(m, source, live[..k]);
      CandsOf(m, source, live[..k]);
      var before := Cands(m, source, live[..k]);
      forall i | 0 <= i < |before| ensures before[i].row < k {
        assert before[i] in before;
      }
    }
  }

  lemma {:induction false} DistinctOnce<T(!new)>(s: seq<T>, x: T)
    requires Distinct(s)
    ensures multiset(s)[x] <= 1
  {
    if s != [] {
      var k := |s| - 1;
      DistinctOnce(s[..k], x);
      assert s == s[..k] + [s[k]];
      assert s[k] !in s[..k];
      assert multiset(s)[x] == multiset(s[..k])[x] + multiset([s[k]])[x];
    }
  }

  lemma OnceDistinct<T(!new)>(s: seq<T>)
    requires forall x :: multiset(s)[x] <= 1
    ensures Distinct(s)
  {
    forall i, j | 0 <= i < j < |s| ensures s[i] != s[j] {
      assert s == s[..j] + [s[j]] + s[j + 1..];
      assert multiset(s)[s[j]] == multiset(s[..j])[s[j]] + 1 + multiset(s[j + 1..])[s[j]];
      assert s[i] in multiset(s[..j]);
    }
  }

  lemma BestDistinct(m: Model, source: seq<Token>, live: seq<Hyp>)
    requires m.Valid() && Started(live)
    ensures Distinct(Best(m, source, live))
  {
    var ranked, best := Cands(m, source, live), Best(m, source, live);
    CandsDistinct(m, source, live);
    TopKIsTop(ranked, 2 * m.beams);
    forall x ensures multiset(best)[x] <= 1 {
      DistinctOnce(ranked, x);
    }
    OnceDistinct(best);
  }

  /** The rows that end among `best`: one ending each, when there is one end token. */
  lemma {:induction false} EndsPerRow(m: Model, source: seq<Token>, live: seq<Hyp>, best: seq<Cand>) returns (rows: set<nat>)
    requires m.Valid() && Started(live) && m.eosToken == m.forcedEosToken
    requires Distinct(best) && forall c :: c in best ==> c.row < |live| && Continues(m, source, live, c)
    ensures |rows| == |Ends(m, live, best)|
    ensures forall r :: r in rows ==> r < |live| && exists c :: c in best && m.IsEnd(c.token) && c.row == r
  {
    if best == [] {
      rows := {};
    } else {
      var k := |best| - 1;
      rows := EndsPerRow(m, source, live, best[..k]);
      var c := best[k];
      assert c in best;
      if m.IsEnd(c.token) {
        forall d | d in best[..k] && m.IsEnd(d.token) ensures d.row != c.row {
          assert d != c;
          assert Continues(m, source, live, d) && Continues(m, source, live, c);
        }
        rows := rows + {c.row};
      }
    }
  }

  lemma {:induction false} BoundedSet(rows: set<nat>, n: nat)
    requires forall r :: r in rows ==> r < n
    ensures |rows| <= n
  {
    if n == 0 {
      assert rows == {};
    } else {
      BoundedSet(rows - {n - 1}, n - 1);
    }
  }

  lemma {:induction false} KeepsCount(m: Model, live: seq<Hyp>, best: seq<Cand>)
    requires forall c :: c in best ==> c.row < |live|
    ensures |Ends(m, live, best)| <= |best|
    ensures var going := |best| - |Ends(m, live, best)|;
      |Keeps(m, best)| == if going < m.beams then going else m.beams
  {
    if best != [] {
      KeepsCount(m, live, best[..|best| - 1]);
    }
  }

  lemma StepWidth(m: Model, source: seq<Token>, s: Solo)
    requires m.Valid() && Started(s.live) && s.live != [] && |s.live| <= m.beams
    requires m.eosToken == m.forcedEosToken && 2 * m.beams <= m.vocabulary
    ensures var r := Step(m, source, s);
      |r.live| == if |r.finished| >= m.beams then 0 else m.beams
  {
    var best := Best(m, source, s.live);
    CandsOf(m, source, s.live);
    assert |best| == 2 * m.beams by { Widest(|s.live|, m.vocabulary); }
    BestOfRows(m, source, s.live);
    BestDistinct(m, source, s.live);
    var rows := EndsPerRow(m, source, s.live, best);
    BoundedSet(rows, |s.live|);
    KeepsCount(m, s.live, best);
  }

  lemma Widest(rows: nat, vocabulary: nat)
    requires 1 <= rows
    ensures vocabulary <= rows * vocabulary
  {
  }

  /** With one end token and a vocabulary of at least two beams' worth, a running segment is
    * exactly `beams` wide after every step, and it stops when `beams` hypotheses have ended. */
  lemma {:induction false} BeamWidth(m: Model, source: seq<Token>, n: nat)
    requires m.Valid() && m.eosToken == m.forcedEosToken && 2 * m.beams <= m.vocabulary
    ensures var s := Run(m, source, n);
      && (s.live != [] ==> |s.finished| < m.beams)
      && (n != 0 && s.live != [] ==> |s.live| == m.beams)
      && (s.live == [] <==> |s.finished| >= m.beams)
  {
    hide Step;
    if n == 0 {
      assert Run(m, source, 0) == Solo([Hyp([m.startToken], Fin(0.0))], []);
    } else {
      BeamWidth(m, source, n - 1);
      var s := Run(m, source, n - 1);
      if s.live != [] {
        assert n == 1 ==> s == Solo([Hyp([m.startToken], Fin(0.0))], []);
        StepWidth(m, source, s);
      } else {
        StepIdle(m, source, s);
      }
    }
  }

  // ----- finished against running

  /** `h` beats, or ties with, every hypothesis of `others`. */
  ghost predicate Unbeaten(h: Hyp, others: seq<Hyp>) {
    forall f :: f in others ==> !Below(h.Normalised(), f.Normalised())
  }

  /** One more hypothesis at the end is chosen unless the choice so far beats it. */
  lemma PickAppend(hyps: seq<Hyp>, last: Hyp)
    requires hyps != []
    ensures Pick(hyps + [last]) ==
      if Below(last.Normalised(), Pick(hyps).Normalised()) then Pick(hyps) else last
  {
    assert (hyps + [last])[..|hyps|] == hyps;
  }

  lemma {:induction false} PickPrefersLast(finished: seq<Hyp>, live: seq<Hyp>)
    requires finished != []
    requires forall f, h :: f in finished && h in live ==> f != h
    ensures Pick(finished + live) in live <==> exists h :: h in live && Unbeaten(h, finished)
  {
    hide Pick;
    if live == [] {
    } else {
      var k := |live| - 1;
      var last, before := live[k], live[..k];
      assert live == before + [last];
      assert finished + live == (finished + before) + [last];
      assert forall h :: h in live <==> h in before || h == last;
      PickPrefersLast(finished, before);
      var best := Pick(finished + before);
      PickAppend(finished + before, last);
      if !Below(last.Normalised(), best.Normalised()) {
        assert Unbeaten(last, finished);
      } else if best in finished {
        assert !Unbeaten(last, finished);
        assert best !in before && best != last;
      } else {
        assert best in before;
      }
    }
  }

  /** The answer is a sentence the model never ended exactly when, with the budget spent, some
    * running hypothesis is beaten by no finished one. Finished hypotheses have no precedence. */
  lemma UnendedAnswer(m: Model, source: seq<Token>)
    requires m.Valid()
    ensures var s := Run(m, source, m.budget);
      |Answer(m, source)| == m.budget + 1 <==> exists h :: h in s.live && Unbeaten(h, s.finished)
  {
    hide Run;
    AlwaysAnswered(m, source, m.budget);
    RunRooted(m, source, m.budget);
    var s := Run(m, source, m.budget);
    forall f, h | f in s.finished && h in s.live ensures f != h {
      assert |f.tokens| <= m.budget && |h.tokens| == m.budget + 1;
    }
    var best := Pick(s.finished + s.live);
    if s.finished == [] {
      assert s.finished + s.live == s.live && best in s.live && Unbeaten(best, s.finished);
    } else {
      PickPrefersLast(s.finished, s.live);
    }
    assert best in s.finished || best in s.live;
  }

  /** A segment that stopped before the budget was spent is answered by an ended sentence. */
  lemma EndedEarly(m: Model, source: seq<Token>)
    requires m.Valid() && Run(m, source, m.budget).live == []
    ensures |Answer(m, source)| <= m.budget
  {
    UnendedAnswer(m, source);
    AnswerRooted(m, source);
  }

  /** How many tokens a hypothesis is taken to have generated: those behind the start token, or one. */
  function Generated(tokens: seq<Token>): (n: nat)
    ensures 1 <= n
  {
    if |tokens| <= 1 then 1 else |tokens| - 1
  }

  /** `h` scores no less a token than `g`, multiplied out. */
  predicate NoWorse(h: Hyp, g: Hyp) {
    g.score.Fin? ==> h.score.Fin? && h.score.value * Generated(g.tokens) as real >= g.score.value * Generated(h.tokens) as real
  }

  lemma NormalisedIs(h: Hyp, g: Hyp)
    ensures !Below(h.Normalised(), g.Normalised()) <==> NoWorse(h, g)
  {
    if h.score.Fin? && g.score.Fin? { Crosswise(h.score.value, Generated(h.tokens), g.score.value, Generated(g.tokens)); }
  }

  lemma Crosswise(x: real, n: nat, y: real, m: nat)
    requires 1 <= n && 1 <= m
    ensures x / n as real >= y / m as real <==> x * m as real >= y * n as real
  {
    var a, b := x / n as real, y / m as real;
    assert x == a * n as real && y == b * m as real;
    var p := n as real * m as real;
    assert x * m as real == a * p && y * n as real == b * p && p > 0.0;
    if a >= b { assert (a - b) * p >= 0.0; } else { assert (b - a) * p > 0.0; }
  }

  /** A segment is answered by a hypothesis that scores no less a token than any other, finished or running;
    * of equals the last, and the running ones come last. */
  lemma AnswerIsBest(m: Model, source: seq<Token>)
    requires m.Valid()
    ensures var s := Run(m, source, m.budget);
      var all := s.finished + s.live;
      exists k :: 0 <= k < |all| && Answer(m, source) == all[k].tokens
        && (forall i :: 0 <= i < |all| ==> NoWorse(all[k], all[i]))
        && forall i :: k < i < |all| ==> !NoWorse(all[i], all[k])
  {
    hide Run, Hyp.Normalised;
    AlwaysAnswered(m, source, m.budget);
    var s := Run(m, source, m.budget);
    var all := s.finished + s.live;
    var k := PickLast(all);
    forall i | 0 <= i < |all| ensures NoWorse(all[k], all[i]) { NormalisedIs(all[k], all[i]); }
    forall i | k < i < |all| ensures !NoWorse(all[i], all[k]) { NormalisedIs(all[i], all[k]); }
  }

  lemma {:induction false} PickLast(hyps: seq<Hyp>) returns (k: nat)
    requires hyps != []
    ensures k < |hyps| && Pick(hyps) == hyps[k]
    ensures forall i :: 0 <= i < |hyps| ==> !Below(hyps[k].Normalised(), hyps[i].Normalised())
    ensures forall i :: k < i < |hyps| ==> Below(hyps[i].Normalised(), hyps[k].Normalised())
  {
    hide Hyp.Normalised;
    var n := |hyps| - 1;
    if n == 0 || !Below(hyps[n].Normalised(), Pick(hyps[..n]).Normalised()) {
      k := n;
    } else {
      k := PickLast(hyps[..n]);
    }
  }

  // ----- a model whose finished hypothesis loses

  /** Three tokens, of which token 1 is always the likeliest; the end token 0 comes second at the first
    * position, and far behind at every later one. With the right `c` and `d` these are the logarithms of
    * probabilities that add up to one. */
  function Sample(beams: nat, c: real, d: real): Model {
    Model((source, cached, token, position) =>
            if position == 0 then [Fin(c - 2.0), Fin(c - 1.0), Fin(c - 3.0)] else [Fin(d - 9.0), Fin(d - 1.0), Fin(d - 3.0)],
          3, 2, 0, 0, 2, 512, beams, MAX_NEW_TOKENS)
  }

  lemma SampleRanking(beams: nat, c: real, d: real)
    requires 1 <= beams
    ensures Sample(beams, c, d).Valid()
    ensures var h := Hyp([2], Fin(0.0));
      Sort(Cands(Sample(beams, c, d), [], [h]), BestFirst)
      == [Cand(Fin(c - 1.0), 0, 1), Cand(Fin(c - 2.0), 0, 0), Cand(Fin(c - 3.0), 0, 2)]
  {
    var m, h := Sample(beams, c, d), Hyp([2], Fin(0.0));
    assert [h][..0] == [];
    var x, y, z := Cand(Fin(c - 2.0), 0, 0), Cand(Fin(c - 1.0), 0, 1), Cand(Fin(c - 3.0), 0, 2);
    assert Cands(m, [], [h]) == RowCands(0, h.score, m.LogProbs([], h.tokens)) == [x, y, z];
    assert [x, y, z][1..] == [y, z] && [y, z][1..] == [z] && [z][1..] == [];
    assert Sort([z], BestFirst) == [z];
    assert Sort([y, z], BestFirst) == Insert(y, [z], BestFirst) == [y, z];
    assert Insert(x, [y, z], BestFirst) == [y] + Insert(x, [z], BestFirst) == [y, x, z];
  }

  lemma SampleFiled(c: real, d: real)
    ensures var best := [Cand(Fin(c - 1.0), 0, 1), Cand(Fin(c - 2.0), 0, 0), Cand(Fin(c - 3.0), 0, 2)];
      && Ends(Sample(2, c, d), [Hyp([2], Fin(0.0))], best) == [Hyp([2], Fin(c - 2.0))]
      && Keeps(Sample(2, c, d), best) == [best[0], best[2]]
      && Extend([Hyp([2], Fin(0.0))], [best[0], best[2]]) == [Hyp([2, 1], Fin(c - 1.0)), Hyp([2, 2], Fin(c - 3.0))]
  {
    SecondEnds(Sample(2, c, d), Hyp([2], Fin(0.0)), Cand(Fin(c - 1.0), 0, 1), Cand(Fin(c - 2.0), 0, 0), Cand(Fin(c - 3.0), 0, 2));
    hide Ends, Keeps;
    assert [2] + [1] == [2, 1] && [2] + [2] == [2, 2];
  }

  lemma SecondEnds(m: Model, h: Hyp, a: Cand, b: Cand, c: Cand)
    requires m.beams == 2 && a.row == b.row == c.row == 0
    requires !m.IsEnd(a.token) && m.IsEnd(b.token) && !m.IsEnd(c.token)
    ensures Ends(m, [h], [a, b, c]) == [Hyp(h.tokens, b.score)] && Keeps(m, [a, b, c]) == [a, c]
  {
    hide Ends, Keeps, Model.IsEnd;
    NoneFiled(m, [h]);
    Listed(a, b, c);
    OneMore(m, [h], [], a);
    OneMore(m, [h], [a], b);
    OneMore(m, [h], [a, b], c);
  }

  lemma Listed(a: Cand, b: Cand, c: Cand)
    ensures [] + [a] == [a] && [a] + [b] == [a, b] && [a, b] + [c] == [a, b, c] && [a] + [c] == [a, c]
  {
  }

  lemma NoneFiled(m: Model, live: seq<Hyp>)
    ensures Ends(m, live, []) == [] && Keeps(m, []) == []
  {
  }

  lemma OneMore(m: Model, live: seq<Hyp>, best: seq<Cand>, c: Cand)
    requires forall b :: b in best + [c] ==> b.row < |live|
    ensures forall b :: b in best ==> b.row < |live|
    ensures Ends(m, live, best + [c])
         == Ends(m, live, best) + if m.IsEnd(c.token) then [Hyp(live[c.row].tokens, c.score)] else []
    ensures Keeps(m, best + [c])
         == Keeps(m, best) + if !m.IsEnd(c.token) && |Keeps(m, best)| < m.beams then [c] else []
  {
    assert (best + [c])[..|best|] == best && c in best + [c] && forall b :: b in best ==> b in best + [c];
  }

  lemma SampleStep(c: real, d: real)
    ensures Sample(2, c, d).Valid()
    ensures Step(Sample(2, c, d), [], Solo([Hyp([2], Fin(0.0))], []))
         == Solo([Hyp([2, 1], Fin(c - 1.0)), Hyp([2, 2], Fin(c - 3.0))], [Hyp([2], Fin(c - 2.0))])
  {
    var m, h := Sample(2, c, d), Hyp([2], Fin(0.0));
    SampleRanking(2, c, d);
    SampleFiled(c, d);
    hide Sort, Cands, Ends, Keeps, Extend;
    assert Best(m, [], [h]) == [Cand(Fin(c - 1.0), 0, 1), Cand(Fin(c - 2.0), 0, 0), Cand(Fin(c - 3.0), 0, 2)];
  }

  /** The six continuations of two hypotheses whose scores are two apart, and their ranking. */
  lemma LateRanking(x: real)
    ensures Sort([Cand(Fin(x - 9.0), 0, 0), Cand(Fin(x - 1.0), 0, 1), Cand(Fin(x - 3.0), 0, 2),
                  Cand(Fin(x - 11.0), 1, 0), Cand(Fin(x - 3.0), 1, 1), Cand(Fin(x - 5.0), 1, 2)], BestFirst)
         == [Cand(Fin(x - 1.0), 0, 1), Cand(Fin(x - 3.0), 0, 2), Cand(Fin(x - 3.0), 1, 1), Cand(Fin(x - 5.0), 1, 2),
             Cand(Fin(x - 9.0), 0, 0), Cand(Fin(x - 11.0), 1, 0)]
  {
    LateInOrder(Cand(Fin(x - 9.0), 0, 0), Cand(Fin(x - 1.0), 0, 1), Cand(Fin(x - 3.0), 0, 2),
      Cand(Fin(x - 11.0), 1, 0), Cand(Fin(x - 3.0), 1, 1), Cand(Fin(x - 5.0), 1, 2));
  }

  lemma LateInOrder(a0: Cand, a1: Cand, a2: Cand, b0: Cand, b1: Cand, b2: Cand)
    requires a0.score.Fin? && b0.score.Fin? && a1.score.Fin? && a2.score.Fin? && b1.score.Fin? && b2.score.Fin?
    requires a1.score.value >= a2.score.value >= b1.score.value >= b2.score.value > a0.score.value >= b0.score.value
    ensures Sort([a0, a1, a2, b0, b1, b2], BestFirst) == [a1, a2, b1, b2, a0, b0]
  {
    hide Sort, Insert;
    SortNothing();
    LateRow(b0, b1, b2, []);
    assert [b0, b1, b2] + [] == [b0, b1, b2] && [b1, b2] + [] == [b1, b2];
    InsertBehind(b0, [b1, b2], []);
    var later := [b1, b2, b0];
    assert later == [b1, b2] + [b0];
    LateRow(a0, a1, a2, [b0, b1, b2]);
    assert [a0, a1, a2] + [b0, b1, b2] == [a0, a1, a2, b0, b1, b2];
    assert [a1, a2] + later == [a1, a2, b1, b2] + [b0];
    InsertBehind(a0, [a1, a2, b1, b2], [b0]);
    InsertStops(a0, b0);
    assert [a1, a2, b1, b2] + [a0, b0] == [a1, a2, b1, b2, a0, b0];
  }

  /** One row in front of candidates that do not beat its own. */
  lemma LateRow(c0: Cand, c1: Cand, c2: Cand, rest: seq<Cand>)
    requires !BestFirst(c2, c1)
    requires Sort(rest, BestFirst) == [] || !BestFirst(Sort(rest, BestFirst)[0], c2)
    ensures Sort([c0, c1, c2] + rest, BestFirst) == Insert(c0, [c1, c2] + Sort(rest, BestFirst), BestFirst)
  {
    hide Sort, Insert;
    var sorted := Sort(rest, BestFirst);
    SortNext(c2, rest);
    SortNext(c1, [c2] + rest);
    SortNext(c0, [c1] + ([c2] + rest));
    assert [c1] + ([c2] + sorted) == [c1, c2] + sorted;
    assert [c0] + ([c1] + ([c2] + rest)) == [c0, c1, c2] + rest;
  }

  /** A candidate goes behind all that beat it. */
  lemma {:induction false} InsertBehind(c: Cand, better: seq<Cand>, rest: seq<Cand>)
    requires forall b :: b in better ==> BestFirst(b, c)
    ensures Insert(c, better + rest, BestFirst) == better + Insert(c, rest, BestFirst)
  {
    if better != [] {
      InsertBehind(c, better[1..], rest);
      assert (better + rest)[1..] == better[1..] + rest;
      assert better + Insert(c, rest, BestFirst) == [better[0]] + (better[1..] + Insert(c, rest, BestFirst));
      assert better[0] in better;
    } else {
      assert better + rest == rest;
    }
  }

  lemma SortNothing()
    ensures Sort([], BestFirst) == [] && forall c: Cand :: Insert(c, [], BestFirst) == [c]
  {
  }

  /** A candidate that nothing behind it beats stays in front. */
  lemma SortNext(c: Cand, rest: seq<Cand>)
    ensures Sort([c] + rest, BestFirst) == Insert(c, Sort(rest, BestFirst), BestFirst)
    ensures var sorted := Sort(rest, BestFirst);
      sorted == [] || !BestFirst(sorted[0], c) ==> Sort([c] + rest, BestFirst) == [c] + sorted
  {
    assert ([c] + rest)[1..] == rest;
  }

  lemma InsertStops(c: Cand, last: Cand)
    requires !BestFirst(last, c)
    ensures Insert(c, [last], BestFirst) == [c, last]
  {
  }

  /** Two running hypotheses of one length, two apart, the better one with the score `top`. */
  ghost predicate TwoApart(live: seq<Hyp>, n: nat, top: real) {
    && |live| == 2 && |live[0].tokens| == |live[1].tokens| == n + 1
    && live[0].score == Fin(top) && live[1].score == Fin(top - 2.0)
  }

  lemma LateRowOf(h: Hyp, row: nat, n: nat, c: real, d: real)
    requires |h.tokens| == n + 1 && 1 <= n && h.score.Fin?
    ensures var x := h.score.value + d;
      RowCands(row, h.score, Sample(2, c, d).LogProbs([], h.tokens))
      == [Cand(Fin(x - 9.0), row, 0), Cand(Fin(x - 1.0), row, 1), Cand(Fin(x - 3.0), row, 2)]
  {
  }

  lemma CandsOfTwo(m: Model, live: seq<Hyp>)
    requires |live| == 2 && live[0].tokens != [] && live[1].tokens != []
    ensures Cands(m, [], live) ==
      RowCands(0, live[0].score, m.LogProbs([], live[0].tokens)) + RowCands(1, live[1].score, m.LogProbs([], live[1].tokens))
  {
    hide RowCands;
    assert live[..1][..0] == [];
    assert Cands(m, [], live[..1]) == [] + RowCands(0, live[0].score, m.LogProbs([], live[0].tokens));
  }

  lemma LateCands(live: seq<Hyp>, n: nat, top: real, c: real, d: real)
    requires TwoApart(live, n, top) && 1 <= n
    ensures var x := top + d;
      Cands(Sample(2, c, d), [], live) ==
        [Cand(Fin(x - 9.0), 0, 0), Cand(Fin(x - 1.0), 0, 1), Cand(Fin(x - 3.0), 0, 2),
         Cand(Fin(x - 11.0), 1, 0), Cand(Fin(x - 3.0), 1, 1), Cand(Fin(x - 5.0), 1, 2)]
  {
    hide Cands, RowCands;
    CandsOfTwo(Sample(2, c, d), live);
    LateRowOf(live[0], 0, n, c, d);
    LateRowOf(live[1], 1, n, c, d);
  }

  /** Where nothing ends, the first `beams` of the best go on. */
  lemma AllGoOn(m: Model, live: seq<Hyp>, best: seq<Cand>)
    requires forall i :: 0 <= i < |best| ==> best[i].row < |live| && !m.IsEnd(best[i].token)
    ensures Ends(m, live, best) == []
    ensures Keeps(m, best) == if |best| <= m.beams then best else best[..m.beams]
  {
    NoneEnds(m, live, best);
    FirstKept(m, best);
  }

  lemma {:induction false} NoneEnds(m: Model, live: seq<Hyp>, best: seq<Cand>)
    requires forall i :: 0 <= i < |best| ==> best[i].row < |live| && !m.IsEnd(best[i].token)
    ensures Ends(m, live, best) == []
  {
    hide Model.IsEnd;
    if best != [] { NoneEnds(m, live, best[..|best| - 1]); }
  }

  lemma {:induction false} FirstKept(m: Model, best: seq<Cand>)
    requires forall i :: 0 <= i < |best| ==> !m.IsEnd(best[i].token)
    ensures Keeps(m, best) == if |best| <= m.beams then best else best[..m.beams]
  {
    hide Model.IsEnd, Keeps, Ends;
    if best == [] {
      NoneFiled(m, []);
    } else {
      var k := |best| - 1;
      FirstKept(m, best[..k]);
      KeepsNext(m, best);
      assert best == best[..k] + [best[k]];
      assert m.beams <= k ==> best[..k][..m.beams] == best[..m.beams];
    }
  }

  lemma KeepsNext(m: Model, best: seq<Cand>)
    requires best != []
    ensures var k := |best| - 1;
      Keeps(m, best) == Keeps(m, best[..k]) + if !m.IsEnd(best[k].token) && |Keeps(m, best[..k])| < m.beams then [best[k]] else []
  {
  }

  lemma LateBest(live: seq<Hyp>, n: nat, top: real, c: real, d: real)
    requires TwoApart(live, n, top) && 1 <= n
    ensures Sample(2, c, d).Valid() && Started(live)
    ensures var x := top + d;
      Best(Sample(2, c, d), [], live) ==
        [Cand(Fin(x - 1.0), 0, 1), Cand(Fin(x - 3.0), 0, 2), Cand(Fin(x - 3.0), 1, 1), Cand(Fin(x - 5.0), 1, 2)]
  {
    hide Cands, Sort;
    LateCands(live, n, top, c, d);
    LateRanking(top + d);
  }

  /** Nothing that ends is among the best any more, and the two go on as far apart as they were. */
  lemma LateStep(s: Solo, n: nat, top: real, c: real, d: real)
    requires TwoApart(s.live, n, top) && 1 <= n && |s.finished| == 1
    ensures Sample(2, c, d).Valid() && Started(s.live)
    ensures var r := Step(Sample(2, c, d), [], s); TwoApart(r.live, n + 1, top + d - 1.0) && r.finished == s.finished
  {
    hide Best, Ends, Keeps;
    LateBest(s.live, n, top, c, d);
    var m := Sample(2, c, d);
    var best := Best(m, [], s.live);
    AllGoOn(m, s.live, best);
    assert best[..2] == [best[0], best[1]];
    assert s.finished + [] == s.finished;
  }

  /** What the better of the two has come to after `n` steps. */
  function Top(c: real, d: real, n: nat): (top: real)
    ensures 1 <= n && c <= d ==> top >= n as real * (c - 1.0)
  {
    if n <= 1 then c - 1.0 else Top(c, d, n - 1) + d - 1.0
  }

  lemma {:induction false} LateRun(n: nat, c: real, d: real)
    requires 1 <= n
    ensures Sample(2, c, d).Valid()
    ensures var s := Run(Sample(2, c, d), [], n);
      TwoApart(s.live, n, Top(c, d, n)) && s.finished == [Hyp([2], Fin(c - 2.0))]
  {
    hide Step;
    if n == 1 {
      SampleStep(c, d);
      assert Run(Sample(2, c, d), [], 0) == Solo([Hyp([2], Fin(0.0))], []);
    } else {
      LateRun(n - 1, c, d);
      LateStep(Run(Sample(2, c, d), [], n - 1), n - 1, Top(c, d, n - 1), c, d);
    }
  }

  /** As shipped, a finished hypothesis loses to running ones that are spent with the budget: the
    * answer is a sentence the model never ended, while one that it did end stands by. */
  lemma RunningBeatsFinished(c: real, d: real)
    requires c <= d
    ensures var m := Sample(2, c, d);
      && m.AsShipped() && m.Valid()
      && Run(m, [], m.budget).finished == [Hyp([2], Fin(c - 2.0))]
      && |Answer(m, [])| == m.budget + 1
  {
    hide Run, Top;
    var m := Sample(2, c, d);
    LateRun(m.budget, c, d);
    UnendedAnswer(m, []);
    var s := Run(m, [], m.budget);
    PerToken(Top(c, d, m.budget), m.budget, c - 1.0);
    assert s.live[0] in s.live && Unbeaten(s.live[0], s.finished);
  }

  lemma PerToken(score: real, n: nat, least: real)
    requires 1 <= n && score >= n as real * least
    ensures score / n as real >= least
  {
  }
}
