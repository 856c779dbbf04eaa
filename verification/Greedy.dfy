/** A search one wide against greedy decoding. */
module Greedy {
  import opened BeamModel
  import opened BeamTheorems
  import opened Sorting
  import opened Wrappers

  // ----- greedy decoding

  /** The index of the best of the first `n` scores but that at `skip`, the first of equals. */
  function Top(scores: seq<Score>, n: nat, skip: nat): (r: Option<nat>)
    requires n <= |scores|
    ensures r.Some? ==> r.value < n && r.value != skip
  {
    if n == 0 then None
    else
      var best := Top(scores, n - 1, skip);
      if n - 1 == skip then best
      else if best.Some? && !Below(scores[best.value], scores[n - 1]) then best
      else Some(n - 1)
  }

  lemma {:induction false} TopIs(scores: seq<Score>, n: nat, skip: nat)
    requires n <= |scores|
    ensures var r := Top(scores, n, skip);
      && (forall u :: 0 <= u < n && u != skip ==> r.Some? && !Below(scores[r.value], scores[u]))
      && (forall u :: r.Some? && 0 <= u < r.value && u != skip ==> Below(scores[u], scores[r.value]))
  {
    if n > 0 { TopIs(scores, n - 1, skip); }
  }

  lemma TopThere(scores: seq<Score>, n: nat, skip: nat, u: nat)
    requires u < n <= |scores| && u != skip
    ensures Top(scores, n, skip).Some?
  {
    TopIs(scores, n, skip);
    assert scores[u] == scores[u];
  }

  /** The score of `h` with each token behind it. */
  function Scores(m: Model, source: seq<Token>, h: Hyp): (r: seq<Score>)
    requires m.Valid() && h.tokens != []
    ensures |r| == m.vocabulary
  {
    var logprobs := m.LogProbs(source, h.tokens);
    seq(|logprobs|, t requires 0 <= t < |logprobs| => Plus(h.score, logprobs[t]))
  }

  /** The token that makes `h` likeliest. */
  function Likeliest(m: Model, source: seq<Token>, h: Hyp): (t: Token)
    requires m.Valid() && h.tokens != []
    ensures t < m.vocabulary
  {
    TopThere(Scores(m, source, h), m.vocabulary, m.vocabulary, 0);
    Top(Scores(m, source, h), m.vocabulary, m.vocabulary).value
  }

  /** The next best. */
  function RunnerUp(m: Model, source: seq<Token>, h: Hyp): (t: Token)
    requires m.Valid() && 2 <= m.vocabulary && h.tokens != []
    ensures t < m.vocabulary && t != Likeliest(m, source, h)
  {
    var first := Likeliest(m, source, h);
    TopThere(Scores(m, source, h), m.vocabulary, first, if first == 0 then 1 else 0);
    Top(Scores(m, source, h), m.vocabulary, first).value
  }

  /** A token that makes a possible hypothesis likeliest is the likeliest token. */
  lemma LikeliestToken(m: Model, source: seq<Token>, h: Hyp, t: Token)
    requires m.Valid() && h.tokens != [] && h.score.Fin? && t < m.vocabulary
    ensures var logprobs := m.LogProbs(source, h.tokens); !Below(logprobs[Likeliest(m, source, h)], logprobs[t])
  {
    var scores, logprobs := Scores(m, source, h), m.LogProbs(source, h.tokens);
    TopIs(scores, m.vocabulary, m.vocabulary);
    assert scores[t] == Plus(h.score, logprobs[t]);
  }

  /** `h` with its likeliest token behind it. */
  function GoOn(m: Model, source: seq<Token>, h: Hyp): (r: Hyp)
    requires m.Valid() && h.tokens != []
    ensures |r.tokens| == |h.tokens| + 1
  {
    var t := Likeliest(m, source, h);
    Hyp(h.tokens + [t], Scores(m, source, h)[t])
  }

  /** Where greedy decoding stands after `n` tokens, if it has not met an end before. */
  function GreedyAt(m: Model, source: seq<Token>, n: nat): (r: Option<Hyp>)
    requires m.Valid()
    ensures r.Some? ==> |r.value.tokens| == n + 1
  {
    if n == 0 then Some(Hyp([m.startToken], Fin(0.0)))
    else
      var before := GreedyAt(m, source, n - 1);
      if before.None? || m.IsEnd(Likeliest(m, source, before.value)) then None
      else Some(GoOn(m, source, before.value))
  }

  /** Greedy decoding: the likeliest token, again and again, up to an end or `n` tokens. */
  function Greedy(m: Model, source: seq<Token>, n: nat): (r: seq<Token>)
    requires m.Valid()
    ensures 1 <= |r| <= n + 1
  {
    var at := GreedyAt(m, source, n);
    if at.Some? then at.value.tokens else assert n != 0; Greedy(m, source, n - 1)
  }

  // ----- what a search one wide ranks

  /** `a` beats `b`, or ties with it and comes first. */
  predicate Ahead(a: Cand, b: Cand) {
    Below(b.score, a.score) || (!Below(a.score, b.score) && a.token < b.token)
  }

  ghost predicate Ranked(s: seq<Cand>) { forall i, j :: 0 <= i < j < |s| ==> Ahead(s[i], s[j]) }

  lemma {:induction false} InsertRanks(x: Cand, s: seq<Cand>)
    requires Ranked(s) && forall c :: c in s ==> x.token < c.token
    ensures Ranked(Insert(x, s, BestFirst))
    ensures forall c :: c in Insert(x, s, BestFirst) <==> c == x || c in s
  {
    if s != [] && BestFirst(s[0], x) {
      InsertRanks(x, s[1..]);
      var t := Insert(x, s[1..], BestFirst);
      assert s == [s[0]] + s[1..];
      forall i | 0 <= i < |t| ensures Ahead(s[0], t[i]) {
        if t[i] != x {
          assert t[i] in s[1..];
        }
      }
    } else if s != [] {
      forall j | 0 <= j < |s| ensures Ahead(x, s[j]) {
        assert s[j] in s && (j > 0 ==> Ahead(s[0], s[j]));
      }
    }
  }

  lemma {:induction false} SortRanks(s: seq<Cand>)
    requires forall i, j :: 0 <= i < j < |s| ==> s[i].token < s[j].token
    ensures Ranked(Sort(s, BestFirst))
    ensures forall c :: c in Sort(s, BestFirst) <==> c in s
  {
    if s != [] {
      SortRanks(s[1..]);
      InsertRanks(s[0], Sort(s[1..], BestFirst));
      assert s == [s[0]] + s[1..];
    }
  }

  lemma LoneCands(m: Model, source: seq<Token>, h: Hyp)
    requires m.Valid() && h.tokens != []
    ensures var cands := Cands(m, source, [h]);
      && |cands| == m.vocabulary
      && forall t :: 0 <= t < m.vocabulary ==> cands[t] == Cand(Scores(m, source, h)[t], 0, t)
  {
    assert [h][..0] == [];
    assert Cands(m, source, []) == [];
    assert Cands(m, source, [h]) == [] + RowCands(0, h.score, m.LogProbs(source, h.tokens));
  }

  /** The candidates of one row with these scores. */
  ghost predicate IsRow(scores: seq<Score>, sorted: seq<Cand>) {
    forall c :: c in sorted <==> c.row == 0 && c.token < |scores| && c.score == scores[c.token]
  }

  /** What is ahead of all but `skip` is the top of all but `skip`. */
  lemma TopLeads(scores: seq<Score>, skip: nat, t: nat)
    requires t < |scores| && t != skip
    requires forall u :: 0 <= u < |scores| && u != skip && u != t ==> Ahead(Cand(scores[t], 0, t), Cand(scores[u], 0, u))
    ensures Top(scores, |scores|, skip) == Some(t)
  {
    TopThere(scores, |scores|, skip, t);
    TopIs(scores, |scores|, skip);
    hide Top;
  }

  /** In a ranking of one row, the leader and the one behind it. */
  lemma LeadersAre(scores: seq<Score>, sorted: seq<Cand>)
    requires Ranked(sorted) && |sorted| >= 2 && IsRow(scores, sorted)
    ensures sorted[0] in sorted && Top(scores, |scores|, |scores|) == Some(sorted[0].token)
    ensures sorted[1] in sorted && Top(scores, |scores|, sorted[0].token) == Some(sorted[1].token)
  {
    hide Top;
    var a, b := sorted[0], sorted[1];
    assert a in sorted && b in sorted && Ahead(a, b);
    forall u | 0 <= u < |scores| && u != a.token
      ensures Ahead(a, Cand(scores[u], 0, u))
      ensures u != b.token ==> Ahead(b, Cand(scores[u], 0, u))
    {
      assert Cand(scores[u], 0, u) in sorted;
    }
    assert a.token != b.token;
    TopLeads(scores, |scores|, a.token);
    TopLeads(scores, a.token, b.token);
  }

  /** The two best continuations of a lone hypothesis are its likeliest and the next. */
  lemma TwoBest(m: Model, source: seq<Token>, h: Hyp)
    requires m.Valid() && m.beams == 1 && 2 <= m.vocabulary && h.tokens != []
    ensures var first, second := Likeliest(m, source, h), RunnerUp(m, source, h);
      Best(m, source, [h]) == [Cand(Scores(m, source, h)[first], 0, first), Cand(Scores(m, source, h)[second], 0, second)]
  {
    hide Sort, Cands, Top, Scores;
    var scores, cands := Scores(m, source, h), Cands(m, source, [h]);
    LoneCands(m, source, h);
    SortRanks(cands);
    var sorted := Sort(cands, BestFirst);
    forall c ensures c in sorted <==> c.row == 0 && c.token < |scores| && c.score == scores[c.token] {
      if c.row == 0 && c.token < |scores| && c.score == scores[c.token] { assert cands[c.token] == c; }
    }
    LeadersAre(scores, sorted);
    assert sorted[0] in sorted && sorted[1] in sorted;
    assert Best(m, source, [h]) == [sorted[0], sorted[1]];
  }

  lemma {:induction false} EndsHere(m: Model, h: Hyp, best: seq<Cand>)
    requires forall c :: c in best ==> c.row == 0
    ensures forall e :: e in Ends(m, [h], best) ==> e.tokens == h.tokens
  {
    if best != [] { EndsHere(m, h, best[..|best| - 1]); }
  }

  /** A search one wide stops when the likeliest token ends the sentence, and also when only the
    * runner-up does; otherwise it takes the likeliest token. */
  lemma WidthOne(m: Model, source: seq<Token>, h: Hyp)
    requires m.Valid() && m.beams == 1 && 2 <= m.vocabulary && h.tokens != []
    ensures var first, second, r := Likeliest(m, source, h), RunnerUp(m, source, h), Step(m, source, Solo([h], []));
      if m.IsEnd(first) || m.IsEnd(second)
      then r.live == [] && r.finished != [] && forall e :: e in r.finished ==> e.tokens == h.tokens
      else r == Solo([GoOn(m, source, h)], [])
  {
    TwoBest(m, source, h);
    var best := Best(m, source, [h]);
    EndsHere(m, h, best);
    hide Likeliest, RunnerUp, Scores, Best;
    assert best[..1] == [best[0]] && best[..1][..0] == [];
    assert Ends(m, [h], best[..1]) == if m.IsEnd(best[0].token) then [Hyp(h.tokens, best[0].score)] else [];
    assert Keeps(m, best[..1]) == if m.IsEnd(best[0].token) then [] else [best[0]];
  }

  // ----- one wide, and greedy

  /** At `h` the runner-up ends the sentence only if the likeliest token does too. */
  predicate Agrees(m: Model, source: seq<Token>, h: Hyp)
    requires m.Valid() && 2 <= m.vocabulary && h.tokens != []
  {
    m.IsEnd(RunnerUp(m, source, h)) ==> m.IsEnd(Likeliest(m, source, h))
  }

  /** It is so wherever greedy decoding stands before its `n`th token. */
  ghost predicate AgreesUpTo(m: Model, source: seq<Token>, n: nat)
    requires m.Valid() && 2 <= m.vocabulary
  {
    forall k :: 0 <= k < n && GreedyAt(m, source, k).Some? ==> Agrees(m, source, GreedyAt(m, source, k).value)
  }

  /** All of a search that has stopped is one sentence. */
  ghost predicate Stopped(s: Solo, tokens: seq<Token>) {
    s.live == [] && s.finished != [] && forall e :: e in s.finished ==> e.tokens == tokens
  }

  /** The search is where greedy decoding is, or it has stopped short of it. */
  ghost predicate Follows(m: Model, source: seq<Token>, n: nat, s: Solo, short: seq<Token>)
    requires m.Valid() && 2 <= m.vocabulary
  {
    if !AgreesUpTo(m, source, n) then Stopped(s, short) && |short| < |Greedy(m, source, n)|
    else if GreedyAt(m, source, n).Some? then s == Solo([GreedyAt(m, source, n).value], [])
    else Stopped(s, Greedy(m, source, n))
  }

  /** One token more. */
  lemma GreedyNext(m: Model, source: seq<Token>, n: nat)
    requires m.Valid() && 2 <= m.vocabulary
    ensures var at, next := GreedyAt(m, source, n), GreedyAt(m, source, n + 1);
      && next == (if at.None? || m.IsEnd(Likeliest(m, source, at.value)) then None else Some(GoOn(m, source, at.value)))
      && (AgreesUpTo(m, source, n + 1) <==> AgreesUpTo(m, source, n) && (at.Some? ==> Agrees(m, source, at.value)))
      && Greedy(m, source, n + 1) == (if next.Some? then next.value.tokens else Greedy(m, source, n))
      && (at.Some? ==> Greedy(m, source, n) == at.value.tokens)
  {
    hide Likeliest, RunnerUp, Scores;
  }

  lemma StepFollows(m: Model, source: seq<Token>, n: nat, s: Solo, short: seq<Token>) returns (short': seq<Token>)
    requires m.Valid() && m.beams == 1 && 2 <= m.vocabulary && Started(s.live) && Follows(m, source, n, s, short)
    ensures Follows(m, source, n + 1, Step(m, source, s), short')
  {
    hide Step, Likeliest, RunnerUp, Scores, Greedy, GreedyAt, AgreesUpTo;
    GreedyNext(m, source, n);
    short' := short;
    var at := GreedyAt(m, source, n);
    if AgreesUpTo(m, source, n) && at.Some? {
      WidthOne(m, source, at.value);
      if !Agrees(m, source, at.value) { short' := at.value.tokens; }
    } else {
      StepIdle(m, source, s);
    }
  }

  lemma {:induction false} RunIsGreedy(m: Model, source: seq<Token>, n: nat) returns (short: seq<Token>)
    requires m.Valid() && m.beams == 1 && 2 <= m.vocabulary
    ensures Follows(m, source, n, Run(m, source, n), short)
  {
    hide Follows, Step;
    if n == 0 {
      short := [];
      StartFollows(m, source);
    } else {
      short := RunIsGreedy(m, source, n - 1);
      short := StepFollows(m, source, n - 1, Run(m, source, n - 1), short);
    }
  }

  lemma StartFollows(m: Model, source: seq<Token>)
    requires m.Valid() && 2 <= m.vocabulary
    ensures Follows(m, source, 0, Solo([Hyp([m.startToken], Fin(0.0))], []), [])
  {
    hide Likeliest, RunnerUp, Scores;
  }

  /** The answer of a search one wide is greedy decoding's exactly when, wherever that stands before its
    * end or the budget's, a runner-up that ends the sentence comes with a likeliest token that does. */
  lemma GreedyExactlyWhen(m: Model, source: seq<Token>)
    requires m.Valid() && m.beams == 1 && 2 <= m.vocabulary
    ensures Answer(m, source) == Greedy(m, source, m.budget) <==> AgreesUpTo(m, source, m.budget)
  {
    hide Run, Greedy, GreedyAt, AgreesUpTo, Model.Valid, Pick;
    var short := RunIsGreedy(m, source, m.budget);
    AlwaysAnswered(m, source, m.budget);
    var s := Run(m, source, m.budget);
    var best := Pick(s.finished + s.live);
    assert best in s.finished || best in s.live;
    GreedyIs(m, source, m.budget);
  }

  lemma GreedyIs(m: Model, source: seq<Token>, n: nat)
    requires m.Valid()
    ensures GreedyAt(m, source, n).Some? ==> Greedy(m, source, n) == GreedyAt(m, source, n).value.tokens
  {
    hide Likeliest, Scores;
  }

  /** As shipped, with a runner-up that ends the sentence at once: greedy decoding would go on. */
  lemma GreedyFails(c: real, d: real)
    ensures var m := Sample(1, c, d);
      m.AsShipped() && m.Valid() && Answer(m, []) != Greedy(m, [], m.budget)
  {
    var m, h := Sample(1, c, d), Hyp([2], Fin(0.0));
    SampleLeaders(c, d);
    GreedyExactlyWhen(m, []);
    AtTheStart(m, []);
    hide Answer, Greedy, GreedyAt, Likeliest, RunnerUp, Model.Valid;
    assert !Agrees(m, [], h);
  }

  lemma AtTheStart(m: Model, source: seq<Token>)
    requires m.Valid()
    ensures GreedyAt(m, source, 0) == Some(Hyp([m.startToken], Fin(0.0)))
  {
  }

  lemma SampleLeaders(c: real, d: real)
    ensures var m, h := Sample(1, c, d), Hyp([2], Fin(0.0));
      m.Valid() && Likeliest(m, [], h) == 1 && RunnerUp(m, [], h) == 0
  {
    SampleRanking(1, c, d);
    hide Sort, Cands, Likeliest, RunnerUp, Scores;
    TwoBest(Sample(1, c, d), [], Hyp([2], Fin(0.0)));
  }
}
