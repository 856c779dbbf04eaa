/** The decoder as the search sees it, and the search of one segment on its own.
 *
 * The network is an uninterpreted function from a source, the entries its key/value cache
 * holds, the token fed in and its position, to one log probability per vocabulary entry.
 * Everything here is about one segment; `BeamSearch` is the batch.
 */
module BeamModel {
  import opened Sorting

  type Token = nat

  /** A log probability or a sum of them. A forbidden token scores minus infinity. */
  datatype Score = NegInf | Fin(value: real)

  function Plus(a: Score, b: Score): Score {
    if a.NegInf? || b.NegInf? then NegInf else Fin(a.value + b.value)
  }

  predicate Below(a: Score, b: Score) {
    b.Fin? && (a.NegInf? || a.value < b.value)
  }

  const MAX_NEW_TOKENS: nat := 512

  /** What the cache holds for one token: its keys and values, computed while this source was attended to. */
  datatype Entry = Entry(source: seq<Token>, token: Token)

  /** The entries of a prefix that was all read against one source. */
  function Against(source: seq<Token>, tokens: seq<Token>): (r: seq<Entry>)
    ensures |r| == |tokens|
  {
    seq(|tokens|, i requires 0 <= i < |tokens| => Entry(source, tokens[i]))
  }

  datatype Model = Model(
    kernel: (seq<Token>, seq<Entry>, Token, nat) -> seq<Score>,
    vocabulary: nat,
    startToken: Token,
    eosToken: Token,
    forcedEosToken: Token,
    padToken: Token,
    maxPositions: nat,
    beams: nat,
    budget: nat)
  {
    /** The search gives up after `MAX_NEW_TOKENS` tokens; nothing below depends on how many. */
    predicate AsShipped() { budget == MAX_NEW_TOKENS }

    /** `beams` is raised to one when a model is loaded; a vocabulary is never empty. */
    ghost predicate Valid() {
      && 1 <= beams && 1 <= vocabulary
      && forall source, cached, token, position ::
           |kernel(source, cached, token, position)| == vocabulary
    }

    predicate IsEnd(token: Token) {
      token == eosToken || token == forcedEosToken
    }

    /** What re-reading the whole prefix would answer for its next token. */
    function LogProbs(source: seq<Token>, prefix: seq<Token>): seq<Score>
      requires prefix != []
    {
      var past := |prefix| - 1;
      kernel(source, Against(source, prefix[..past]), prefix[past], past)
    }
  }

  /** A partial or finished translation of one segment. */
  datatype Hyp = Hyp(tokens: seq<Token>, score: Score)
  {
    /** The score per generated token; the length penalty is an exponent of one. */
    function Normalised(): Score {
      var generated := if |tokens| <= 2 then 1 else |tokens| - 1;
      if score.NegInf? then NegInf else Fin(score.value / generated as real)
    }
  }

  /** A continuation: the row it extends, by which token, and at what score. */
  datatype Cand = Cand(score: Score, row: nat, token: Token)

  const BestFirst: (Cand, Cand) -> bool := (left: Cand, right: Cand) => Below(right.score, left.score)

  function RowCands(row: nat, score: Score, logprobs: seq<Score>): (r: seq<Cand>)
    ensures |r| == |logprobs|
    ensures forall t :: 0 <= t < |r| ==> r[t] == Cand(Plus(score, logprobs[t]), row, t)
  {
    seq(|logprobs|, t requires 0 <= t < |logprobs| => Cand(Plus(score, logprobs[t]), row, t))
  }

  /** Every continuation of every row, in row order. */
  function Cands(m: Model, source: seq<Token>, live: seq<Hyp>): seq<Cand>
    requires forall h :: h in live ==> h.tokens != []
  {
    if live == [] then []
    else
      var k := |live| - 1;
      Cands(m, source, live[..k]) + RowCands(k, live[k].score, m.LogProbs(source, live[k].tokens))
  }

  /** The `wanted` best of `ranked`, best first; ties keep the order they were pushed in. */
  function TopK(ranked: seq<Cand>, wanted: nat): (r: seq<Cand>)
    ensures |r| == if wanted < |ranked| then wanted else |ranked|
  {
    var sorted := Sort(ranked, BestFirst);
    if wanted < |sorted| then sorted[..wanted] else sorted
  }

  /** The hypotheses among `best` that end here. */
  function Ends(m: Model, live: seq<Hyp>, best: seq<Cand>): seq<Hyp>
    requires forall c :: c in best ==> c.row < |live|
  {
    if best == [] then []
    else
      var k := |best| - 1;
      Ends(m, live, best[..k]) +
      if m.IsEnd(best[k].token) then [Hyp(live[best[k].row].tokens, best[k].score)] else []
  }

  /** The first `beams` of `best` that go on. */
  function Keeps(m: Model, best: seq<Cand>): (r: seq<Cand>)
    ensures |r| <= m.beams
    ensures forall c :: c in r ==> c in best && !m.IsEnd(c.token)
  {
    if best == [] then []
    else
      var k := |best| - 1;
      var kept := Keeps(m, best[..k]);
      if !m.IsEnd(best[k].token) && |kept| < m.beams then kept + [best[k]] else kept
  }

  function Extend(live: seq<Hyp>, kept: seq<Cand>): (r: seq<Hyp>)
    requires forall c :: c in kept ==> c.row < |live|
    ensures |r| == |kept|
    ensures forall k :: 0 <= k < |r| ==> r[k] == Hyp(live[kept[k].row].tokens + [kept[k].token], kept[k].score)
  {
    seq(|kept|, k requires 0 <= k < |kept| => Hyp(live[kept[k].row].tokens + [kept[k].token], kept[k].score))
  }

  /** Where the search of one segment stands. */
  datatype Solo = Solo(live: seq<Hyp>, finished: seq<Hyp>)

  ghost predicate Started(live: seq<Hyp>) {
    forall h :: h in live ==> h.tokens != []
  }

  lemma {:induction false} CandsOf(m: Model, source: seq<Token>, live: seq<Hyp>)
    requires m.Valid() && Started(live)
    ensures |Cands(m, source, live)| == |live| * m.vocabulary
    ensures forall c :: c in Cands(m, source, live) ==> Continues(m, source, live, c)
  {
    if live != [] {
      CandsOf(m, source, live[..|live| - 1]);
    }
  }

  lemma TopKOf(ranked: seq<Cand>, wanted: nat)
    ensures forall c :: c in TopK(ranked, wanted) ==> c in ranked
  {
    SortPermutes(ranked, BestFirst);
    forall c | c in TopK(ranked, wanted) ensures c in ranked {
      assert c in multiset(Sort(ranked, BestFirst));
    }
  }

  function Best(m: Model, source: seq<Token>, live: seq<Hyp>): (best: seq<Cand>)
    requires m.Valid() && Started(live)
    ensures forall c :: c in best ==> c.row < |live|
  {
    CandsOf(m, source, live);
    TopKOf(Cands(m, source, live), 2 * m.beams);
    TopK(Cands(m, source, live), 2 * m.beams)
  }

  function Step(m: Model, source: seq<Token>, s: Solo): (r: Solo)
    requires m.Valid() && Started(s.live)
    ensures Started(r.live)
  {
    if s.live == [] then s
    else
      var best := Best(m, source, s.live);
      var finished := s.finished + Ends(m, s.live, best);
      Solo(if |finished| >= m.beams then [] else Extend(s.live, Keeps(m, best)), finished)
  }

  /** The state after `n` steps from the start token alone. */
  function Run(m: Model, source: seq<Token>, n: nat): (r: Solo)
    requires m.Valid()
    ensures Started(r.live)
  {
    if n == 0 then Solo([Hyp([m.startToken], Fin(0.0))], [])
    else Step(m, source, Run(m, source, n - 1))
  }

  /** The last of the hypotheses no other one beats, as `max_by` chooses. */
  function Pick(hyps: seq<Hyp>): (best: Hyp)
    requires hyps != []
    ensures best in hyps
    ensures forall h :: h in hyps ==> !Below(best.Normalised(), h.Normalised())
  {
    if |hyps| == 1 then hyps[0]
    else
      var k := |hyps| - 1;
      var best := Pick(hyps[..k]);
      if Below(hyps[k].Normalised(), best.Normalised()) then best else hyps[k]
  }

  lemma BestIsNotEmpty(m: Model, source: seq<Token>, live: seq<Hyp>)
    requires m.Valid() && Started(live) && live != []
    ensures Best(m, source, live) != []
  {
    CandsOf(m, source, live);
    assert |live| * m.vocabulary >= 1 by { Product(|live|, m.vocabulary); }
  }

  lemma Product(a: nat, b: nat)
    requires 1 <= a && 1 <= b
    ensures a <= a * b
  {
  }

  lemma StepAnswers(m: Model, source: seq<Token>, s: Solo)
    requires m.Valid() && Started(s.live) && s.live != []
    ensures var r := Step(m, source, s); r.live != [] || r.finished != []
  {
    var best := Best(m, source, s.live);
    BestIsNotEmpty(m, source, s.live);
    EndOrKeep(m, s.live, best);
  }

  lemma StepIdle(m: Model, source: seq<Token>, s: Solo)
    requires m.Valid() && s.live == []
    ensures Started(s.live) && Step(m, source, s) == s
  {
  }

  /** Never without an answer: a step either ends a hypothesis or keeps one going. */
  lemma {:induction false} AlwaysAnswered(m: Model, source: seq<Token>, n: nat)
    requires m.Valid()
    ensures var s := Run(m, source, n); s.live != [] || s.finished != []
  {
    hide Step;
    if n != 0 {
      AlwaysAnswered(m, source, n - 1);
      var s := Run(m, source, n - 1);
      if s.live != [] { StepAnswers(m, source, s); } else { StepIdle(m, source, s); }
    }
  }

  lemma {:induction false} EndOrKeep(m: Model, live: seq<Hyp>, best: seq<Cand>)
    requires best != [] && 1 <= m.beams
    requires forall c :: c in best ==> c.row < |live|
    ensures Ends(m, live, best) != [] || Keeps(m, best) != []
  {
    if |best| > 1 {
      EndOrKeep(m, live, best[..|best| - 1]);
    }
  }

  /** The tokens a segment is answered with. */
  function Answer(m: Model, source: seq<Token>): seq<Token>
    requires m.Valid()
  {
    AlwaysAnswered(m, source, m.budget);
    var s := Run(m, source, m.budget);
    Pick(s.finished + s.live).tokens
  }

  /** A search still going when the position table has no place left for its next token fails. */
  predicate Overruns(m: Model, source: seq<Token>)
    requires m.Valid()
  {
    m.maxPositions < m.budget && Run(m, source, m.maxPositions).live != []
  }

  // ----- what every hypothesis of a run is

  /** The sum of the log probabilities of the tokens after the first. */
  function SumOf(m: Model, source: seq<Token>, tokens: seq<Token>): Score {
    if |tokens| <= 1 then Fin(0.0)
    else
      var k := |tokens| - 1;
      Plus(SumOf(m, source, tokens[..k]), LogProbOf(m, source, tokens[..k], tokens[k]))
  }

  function LogProbOf(m: Model, source: seq<Token>, prefix: seq<Token>, token: Token): Score
    requires prefix != []
  {
    var logprobs := m.LogProbs(source, prefix);
    if token < |logprobs| then logprobs[token] else NegInf
  }

  /** The log probability of each token behind the first. */
  function Along(m: Model, source: seq<Token>, tokens: seq<Token>): (r: seq<Score>)
    requires tokens != []
    ensures |r| == |tokens| - 1
    ensures forall i :: 0 <= i < |r| ==> r[i] == LogProbOf(m, source, tokens[..i + 1], tokens[i + 1])
  {
    seq(|tokens| - 1, i requires 0 <= i < |tokens| - 1 => LogProbOf(m, source, tokens[..i + 1], tokens[i + 1]))
  }

  function Total(scores: seq<Score>): real {
    if scores == [] then 0.0
    else
      var k := |scores| - 1;
      Total(scores[..k]) + if scores[k].Fin? then scores[k].value else 0.0
  }

  predicate AnyForbidden(scores: seq<Score>) { exists i :: 0 <= i < |scores| && scores[i].NegInf? }

  lemma AlongNext(m: Model, source: seq<Token>, tokens: seq<Token>)
    requires |tokens| > 1
    ensures var k := |tokens| - 1;
      Along(m, source, tokens) == Along(m, source, tokens[..k]) + [LogProbOf(m, source, tokens[..k], tokens[k])]
  {
    hide LogProbOf;
    var k := |tokens| - 1;
    var along, before := Along(m, source, tokens), Along(m, source, tokens[..k]);
    forall i | 0 <= i < k - 1 ensures along[i] == before[i] { assert tokens[..k][..i + 1] == tokens[..i + 1]; }
  }

  lemma OneMoreScore(scores: seq<Score>, last: Score)
    ensures AnyForbidden(scores + [last]) <==> AnyForbidden(scores) || last.NegInf?
    ensures Total(scores + [last]) == Total(scores) + if last.Fin? then last.value else 0.0
  {
    var more := scores + [last];
    assert more[..|scores|] == scores && more[|scores|] == last;
    if AnyForbidden(scores) {
      var i :| 0 <= i < |scores| && scores[i].NegInf?;
      assert more[i].NegInf?;
    }
  }

  /** One forbidden token makes the sum minus infinity, whatever stands behind it; otherwise it is the total. */
  lemma {:induction false} SumIs(m: Model, source: seq<Token>, tokens: seq<Token>)
    requires tokens != []
    ensures var along := Along(m, source, tokens);
      SumOf(m, source, tokens) == if AnyForbidden(along) then NegInf else Fin(Total(along))
  {
    hide LogProbOf, Along, AnyForbidden, Total;
    var k := |tokens| - 1;
    if k == 0 {
      NoScores(m, source, tokens);
    } else {
      SumIs(m, source, tokens[..k]);
      AlongNext(m, source, tokens);
      OneMoreScore(Along(m, source, tokens[..k]), LogProbOf(m, source, tokens[..k], tokens[k]));
    }
  }

  lemma NoScores(m: Model, source: seq<Token>, tokens: seq<Token>)
    requires |tokens| == 1
    ensures !AnyForbidden(Along(m, source, tokens)) && Total(Along(m, source, tokens)) == 0.0
  {
  }

  /** `tokens` opens with the start token, and none of the `length - 1` after it ends anything. */
  predicate Rooted(m: Model, tokens: seq<Token>, length: nat) {
    && |tokens| == length && 1 <= length && tokens[0] == m.startToken
    && forall i :: 1 <= i < length ==>
         tokens[i] < m.vocabulary && tokens[i] != m.eosToken && tokens[i] != m.forcedEosToken
  }

  /** A running hypothesis: `n` tokens chosen, scored by the sum along them. */
  ghost predicate Running(m: Model, source: seq<Token>, h: Hyp, n: nat) {
    Rooted(m, h.tokens, n + 1) && h.score == SumOf(m, source, h.tokens)
  }

  /** A finished one: fewer than `n` tokens chosen, scored by them and the end they were ended by. */
  ghost predicate Finished(m: Model, source: seq<Token>, h: Hyp, n: nat) {
    && 1 <= |h.tokens| <= n && Rooted(m, h.tokens, |h.tokens|)
    && exists end: Token :: (end == m.eosToken || end == m.forcedEosToken) && end < m.vocabulary
         && h.score == Plus(SumOf(m, source, h.tokens), LogProbOf(m, source, h.tokens, end))
  }

  /** A continuation of one of the rows of `live`, scored as one. */
  ghost predicate Continues(m: Model, source: seq<Token>, live: seq<Hyp>, c: Cand)
    requires m.Valid() && Started(live)
  {
    && c.row < |live| && c.token < m.vocabulary
    && c.score == Plus(live[c.row].score, m.LogProbs(source, live[c.row].tokens)[c.token])
  }

  lemma ExtendRuns(m: Model, source: seq<Token>, live: seq<Hyp>, c: Cand, n: nat)
    requires m.Valid() && Started(live) && Continues(m, source, live, c)
    requires Running(m, source, live[c.row], n)
    ensures !m.IsEnd(c.token) ==> Running(m, source, Hyp(live[c.row].tokens + [c.token], c.score), n + 1)
    ensures m.IsEnd(c.token) ==> Finished(m, source, Hyp(live[c.row].tokens, c.score), n + 1)
  {
    var tokens := live[c.row].tokens + [c.token];
    assert tokens[..|tokens| - 1] == live[c.row].tokens;
    assert c.score == Plus(SumOf(m, source, live[c.row].tokens), LogProbOf(m, source, live[c.row].tokens, c.token));
  }

  lemma {:induction false} EndsFinished(m: Model, source: seq<Token>, live: seq<Hyp>, best: seq<Cand>, n: nat)
    requires m.Valid() && Started(live) && forall i :: 0 <= i < |live| ==> Running(m, source, live[i], n)
    requires forall c :: c in best ==> c.row < |live| && Continues(m, source, live, c)
    ensures forall h :: h in Ends(m, live, best) ==> Finished(m, source, h, n + 1)
  {
    if best != [] {
      var k := |best| - 1;
      EndsFinished(m, source, live, best[..k], n);
      assert best[k] in best;
      ExtendRuns(m, source, live, best[k], n);
    }
  }

  lemma FinishedLater(m: Model, source: seq<Token>, h: Hyp, n: nat)
    requires Finished(m, source, h, n)
    ensures Finished(m, source, h, n + 1)
  {
  }

  lemma BestOfRows(m: Model, source: seq<Token>, live: seq<Hyp>)
    requires m.Valid() && Started(live)
    ensures forall c :: c in Best(m, source, live) ==> Continues(m, source, live, c)
  {
    CandsOf(m, source, live);
    TopKOf(Cands(m, source, live), 2 * m.beams);
  }

  ghost predicate SoloRooted(m: Model, source: seq<Token>, s: Solo, n: nat) {
    && (forall i :: 0 <= i < |s.live| ==> Running(m, source, s.live[i], n))
    && (forall h :: h in s.finished ==> Finished(m, source, h, n))
  }

  lemma StepRooted(m: Model, source: seq<Token>, s: Solo, n: nat)
    requires m.Valid() && Started(s.live) && SoloRooted(m, source, s, n)
    ensures SoloRooted(m, source, Step(m, source, s), n + 1)
  {
    hide Running, Finished, Best;
    forall h | h in s.finished ensures Finished(m, source, h, n + 1) { FinishedLater(m, source, h, n); }
    if s.live != [] {
      var best := Best(m, source, s.live);
      BestOfRows(m, source, s.live);
      EndsFinished(m, source, s.live, best, n);
      var kept := Keeps(m, best);
      forall k | 0 <= k < |kept| ensures Running(m, source, Extend(s.live, kept)[k], n + 1) {
        assert kept[k] in best;
        ExtendRuns(m, source, s.live, kept[k], n);
      }
    }
  }

  /** Scores are sums, running hypotheses are all one length, and no end token is ever extended. */
  lemma {:induction false} RunRooted(m: Model, source: seq<Token>, n: nat)
    requires m.Valid()
    ensures SoloRooted(m, source, Run(m, source, n), n)
  {
    hide Step;
    if n == 0 {
      assert Run(m, source, 0).live == [Hyp([m.startToken], Fin(0.0))];
    } else {
      hide SoloRooted;
      RunRooted(m, source, n - 1);
      StepRooted(m, source, Run(m, source, n - 1), n - 1);
    }
  }

  /** An answer is the start token and at most `budget` tokens, none of which is an end. */
  lemma AnswerRooted(m: Model, source: seq<Token>)
    requires m.Valid()
    ensures var tokens := Answer(m, source);
      1 <= |tokens| <= m.budget + 1 && Rooted(m, tokens, |tokens|)
  {
    hide Run;
    AlwaysAnswered(m, source, m.budget);
    RunRooted(m, source, m.budget);
    var s := Run(m, source, m.budget);
    var best := Pick(s.finished + s.live);
    if best !in s.finished {
      assert best in s.live;
    }
  }
}
