/** The batched search: many segments in one decoder, moved together.
 *
 * A batch holds the hypotheses of several segments in the rows of one decoder, and carries
 * the decoder's key/value cache from step to step by moving its rows after their parents.
 * `Engine.Search` is that loop; its contract is that every segment is answered exactly as
 * `BeamModel.Answer` answers it alone, re-reading each prefix from the start.
 */
module BeamSearch {
  import opened BeamModel
  import opened Lists
  import opened Sorting
  import opened Text
  import opened Wrappers

  /** A hypothesis in a batch: which segment it translates, and what it holds. */
  datatype Hypothesis = Hypothesis(segment: nat, tokens: seq<Token>, score: Score)
  {
    function Plain(): Hyp { Hyp(tokens, score) }
  }

  /** The rows of the batch that translate `segment`, in order. */
  function Mine(live: seq<Hypothesis>, segment: nat): (rows: seq<nat>)
    ensures forall k :: 0 <= k < |rows| ==> rows[k] < |live| && live[rows[k]].segment == segment
  {
    if live == [] then []
    else
      var k := |live| - 1;
      Mine(live[..k], segment) + if live[k].segment == segment then [k] else []
  }

  /** The hypotheses of `segment`, as its own search would hold them. */
  function Of(live: seq<Hypothesis>, segment: nat): seq<Hyp> {
    if live == [] then []
    else
      var k := |live| - 1;
      Of(live[..k], segment) + if live[k].segment == segment then [live[k].Plain()] else []
  }

  lemma {:induction false} MineOf(live: seq<Hypothesis>, segment: nat)
    ensures |Mine(live, segment)| == |Of(live, segment)|
    ensures forall k :: 0 <= k < |Mine(live, segment)| ==>
      Of(live, segment)[k] == live[Mine(live, segment)[k]].Plain()
  {
    if live != [] {
      MineOf(live[..|live| - 1], segment);
    }
  }

  lemma {:induction false} OfAppend(a: seq<Hypothesis>, b: seq<Hypothesis>, segment: nat)
    ensures Of(a + b, segment) == Of(a, segment) + Of(b, segment)
  {
    if b == [] {
      assert a + b == a;
    } else {
      var k := |b| - 1;
      OfAppend(a, b[..k], segment);
      assert (a + b)[..|a + b| - 1] == a + b[..k];
    }
  }

  /** Hypotheses of one segment: all of them are its own, none of them another's. */
  lemma {:induction false} OfUniform(ext: seq<Hypothesis>, mine: nat, segment: nat)
    requires forall h :: h in ext ==> h.segment == mine
    ensures segment != mine ==> Of(ext, segment) == []
    ensures segment == mine ==> |Of(ext, segment)| == |ext|
    ensures segment == mine ==> forall k :: 0 <= k < |ext| ==> Of(ext, segment)[k] == ext[k].Plain()
  {
    if ext != [] {
      OfUniform(ext[..|ext| - 1], mine, segment);
    }
  }

  lemma {:induction false} OfStart(n: nat, startToken: Token, segment: nat)
    ensures
      var live := seq(n, (s: nat) => Hypothesis(s, [startToken], Fin(0.0)));
      Of(live, segment) == if segment < n then [Hyp([startToken], Fin(0.0))] else []
  {
    if n != 0 {
      OfStart(n - 1, startToken, segment);
      var live := seq(n, (s: nat) => Hypothesis(s, [startToken], Fin(0.0)));
      assert live[..n - 1] == seq(n - 1, (s: nat) => Hypothesis(s, [startToken], Fin(0.0)));
    }
  }

  // ----- ranking the rows of one segment inside the batch

  /** Every continuation of the hypotheses in `rows`, in the order the loops push them. */
  function RowsCands(logprobs: seq<seq<Score>>, live: seq<Hypothesis>, rows: seq<nat>): seq<Cand>
    requires |logprobs| == |live| && InRange(rows, |live|)
  {
    if rows == [] then []
    else
      var k := |rows| - 1;
      RowsCands(logprobs, live, rows[..k]) + RowCands(rows[k], live[rows[k]].score, logprobs[rows[k]])
  }

  method BestOf(logprobs: seq<seq<Score>>, live: seq<Hypothesis>, rows: seq<nat>, wanted: nat)
    returns (ranked: seq<Cand>)
    requires |logprobs| == |live| && InRange(rows, |live|)
    ensures ranked == TopK(RowsCands(logprobs, live, rows), wanted)
  {
    ranked := [];
    for i := 0 to |rows|
      invariant ranked == RowsCands(logprobs, live, rows[..i])
    {
      var row := rows[i];
      var mine := logprobs[row];
      ghost var before := ranked;
      for token := 0 to |mine|
        invariant ranked == before + RowCands(row, live[row].score, mine)[..token]
      {
        ranked := ranked + [Cand(Plus(live[row].score, mine[token]), row, token)];
      }
      assert rows[..i + 1][..i] == rows[..i];
    }
    assert rows[..|rows|] == rows;
    ranked := TopK(ranked, wanted);
  }

  /** The batch row a row of the segment's own search stands for. */
  function Relabel(rows: seq<nat>): Cand -> Cand {
    (c: Cand) => if c.row < |rows| then c.(row := rows[c.row]) else c
  }

  ghost predicate SameRows(m: Model, source: seq<Token>, hyps: seq<Hyp>,
                           logprobs: seq<seq<Score>>, live: seq<Hypothesis>, rows: seq<nat>)
  {
    && Started(hyps) && |rows| == |hyps| && |logprobs| == |live|
    && forall k :: 0 <= k < |rows| ==>
         && rows[k] < |live| && live[rows[k]].Plain() == hyps[k]
         && logprobs[rows[k]] == m.LogProbs(source, hyps[k].tokens)
  }

  lemma {:induction false} CandsProject(m: Model, source: seq<Token>, hyps: seq<Hyp>,
                       logprobs: seq<seq<Score>>, live: seq<Hypothesis>, rows: seq<nat>, n: nat)
    requires m.Valid() && SameRows(m, source, hyps, logprobs, live, rows) && n <= |rows|
    ensures Started(hyps[..n])
    ensures RowsCands(logprobs, live, rows[..n]) == Map(Relabel(rows), Cands(m, source, hyps[..n]))
  {
    if n != 0 {
      CandsProject(m, source, hyps, logprobs, live, rows, n - 1);
      assert rows[..n][..n - 1] == rows[..n - 1] && hyps[..n][..n - 1] == hyps[..n - 1];
      CandsOf(m, source, hyps[..n]);
    }
  }

  /** Relabelling rows leaves scores alone, so it commutes with ranking. */
  lemma TopKCommutes(ranked: seq<Cand>, rows: seq<nat>, wanted: nat)
    ensures TopK(Map(Relabel(rows), ranked), wanted) == Map(Relabel(rows), TopK(ranked, wanted))
  {
    SortCommutes(ranked, Relabel(rows), BestFirst, BestFirst);
  }

  /** Ranked together in the batch or alone, the candidates of a segment are the same. */
  lemma BestProject(m: Model, source: seq<Token>, hyps: seq<Hyp>,
                    logprobs: seq<seq<Score>>, live: seq<Hypothesis>, rows: seq<nat>)
    requires m.Valid() && SameRows(m, source, hyps, logprobs, live, rows)
    ensures TopK(RowsCands(logprobs, live, rows), 2 * m.beams)
         == Map(Relabel(rows), Best(m, source, hyps))
  {
    CandsProject(m, source, hyps, logprobs, live, rows, |rows|);
    assert rows[..|rows|] == rows && hyps[..|rows|] == hyps;
    TopKCommutes(Cands(m, source, hyps), rows, 2 * m.beams);
  }

  /** The hypotheses of a batch without their segments, row by row. */
  function PlainAll(live: seq<Hypothesis>): (r: seq<Hyp>)
    ensures |r| == |live| && forall i :: 0 <= i < |r| ==> r[i] == live[i].Plain()
  {
    seq(|live|, i requires 0 <= i < |live| => live[i].Plain())
  }

  lemma {:induction false} RelabelInRange(best: seq<Cand>, rows: seq<nat>, n: nat)
    requires InRange(rows, n)
    requires forall c :: c in best ==> c.row < |rows|
    ensures forall c :: c in Map(Relabel(rows), best) ==> c.row < n
  {
    forall c | c in Map(Relabel(rows), best) ensures c.row < n {
      var i :| 0 <= i < |best| && Map(Relabel(rows), best)[i] == c;
      assert best[i] in best;
    }
  }

  lemma {:induction false} EndsProject(m: Model, hyps: seq<Hyp>, live: seq<Hypothesis>, rows: seq<nat>, best: seq<Cand>)
    requires |rows| == |hyps| && InRange(rows, |live|)
    requires forall k :: 0 <= k < |rows| ==> live[rows[k]].Plain() == hyps[k]
    requires forall c :: c in best ==> c.row < |hyps|
    ensures forall c :: c in Map(Relabel(rows), best) ==> c.row < |live|
    ensures Ends(m, PlainAll(live), Map(Relabel(rows), best)) == Ends(m, hyps, best)
  {
    RelabelInRange(best, rows, |live|);
    if best != [] {
      var k := |best| - 1;
      EndsProject(m, hyps, live, rows, best[..k]);
      assert Map(Relabel(rows), best)[..k] == Map(Relabel(rows), best[..k]);
      assert best[k] in best;
    }
  }

  lemma {:induction false} KeepsProject(m: Model, rows: seq<nat>, best: seq<Cand>)
    ensures Keeps(m, Map(Relabel(rows), best)) == Map(Relabel(rows), Keeps(m, best))
  {
    if best != [] {
      var k := |best| - 1;
      KeepsProject(m, rows, best[..k]);
      assert Map(Relabel(rows), best)[..k] == Map(Relabel(rows), best[..k]);
    }
  }

  /** `ext` puts one token behind the row each of its hypotheses came from. */
  ghost predicate Descends(ext: seq<Hypothesis>, parents: seq<nat>, live: seq<Hypothesis>) {
    && |parents| == |ext| && InRange(parents, |live|)
    && forall k :: 0 <= k < |ext| ==>
         && ext[k].segment == live[parents[k]].segment
         && ext[k].tokens != []
         && ext[k].tokens[..|ext[k].tokens| - 1] == live[parents[k]].tokens
  }

  lemma ExtendProject(hyps: seq<Hyp>, live: seq<Hypothesis>, rows: seq<nat>, kept: seq<Cand>)
    requires |rows| == |hyps| && InRange(rows, |live|)
    requires forall k :: 0 <= k < |rows| ==> live[rows[k]].Plain() == hyps[k]
    requires forall c :: c in kept ==> c.row < |hyps|
    ensures forall c :: c in Map(Relabel(rows), kept) ==> c.row < |live|
    ensures Extend(PlainAll(live), Map(Relabel(rows), kept)) == Extend(hyps, kept)
  {
    RelabelInRange(kept, rows, |live|);
    forall k | 0 <= k < |kept|
      ensures Extend(PlainAll(live), Map(Relabel(rows), kept))[k] == Extend(hyps, kept)[k]
    {
      assert kept[k] in kept && Map(Relabel(rows), kept)[k] in Map(Relabel(rows), kept);
    }
  }

  /** Files each ranked continuation under what ends or what goes on. */
  method Distribute(m: Model, live: seq<Hypothesis>, best: seq<Cand>, endings: seq<Hyp>)
    returns (ended: seq<Hyp>, kept: seq<Cand>)
    requires forall c :: c in best ==> c.row < |live|
    ensures ended == endings + Ends(m, PlainAll(live), best)
    ensures kept == Keeps(m, best)
  {
    ended, kept := endings, [];
    for i := 0 to |best|
      invariant ended == endings + Ends(m, PlainAll(live), best[..i])
      invariant kept == Keeps(m, best[..i])
    {
      assert best[..i + 1][..i] == best[..i] && best[i] in best;
      if m.IsEnd(best[i].token) {
        ended := ended + [Hyp(live[best[i].row].tokens, best[i].score)];
      } else if |kept| < m.beams {
        kept := kept + [best[i]];
      }
    }
    assert best[..|best|] == best;
  }

  /** The rows of the next batch that continue `kept`, and the rows they continue. */
  method Carry(live: seq<Hypothesis>, kept: seq<Cand>, segment: nat)
    returns (ext: seq<Hypothesis>, parents: seq<nat>)
    requires forall c :: c in kept ==> c.row < |live| && live[c.row].segment == segment
    ensures PlainAll(ext) == Extend(PlainAll(live), kept)
    ensures forall h :: h in ext ==> h.segment == segment
    ensures Descends(ext, parents, live)
  {
    ext, parents := [], [];
    for i := 0 to |kept|
      invariant |ext| == |parents| == i
      invariant forall k :: 0 <= k < i ==>
        && kept[k].row < |live| && live[kept[k].row].segment == segment
        && ext[k] == Hypothesis(segment, live[kept[k].row].tokens + [kept[k].token], kept[k].score)
        && parents[k] == kept[k].row
    {
      assert kept[i] in kept;
      ext := ext + [Hypothesis(segment, live[kept[i].row].tokens + [kept[i].token], kept[i].score)];
      parents := parents + [kept[i].row];
    }
  }

  /** One segment's share of a step: its endings, and the rows that carry it on. */
  method AdvanceSegment(m: Model, ghost source: seq<Token>, logprobs: seq<seq<Score>>, live: seq<Hypothesis>,
                        segment: nat, endings: seq<Hyp>)
    returns (ended: seq<Hyp>, ext: seq<Hypothesis>, parents: seq<nat>)
    requires m.Valid() && Started(Of(live, segment)) && |logprobs| == |live|
    requires SameRows(m, source, Of(live, segment), logprobs, live, Mine(live, segment))
    ensures Solo(PlainAll(ext), ended) == Step(m, source, Solo(Of(live, segment), endings))
    ensures forall h :: h in ext ==> h.segment == segment
    ensures Descends(ext, parents, live)
  {
    hide Of, Mine, SameRows, Cands, TopK, Ends, Keeps;
    ended, ext, parents := endings, [], [];
    var mine := Mine(live, segment);
    ghost var hyps := Of(live, segment);
    MineOf(live, segment);
    if mine == [] {
      return;
    }

    var best := BestOf(logprobs, live, mine, 2 * m.beams);
    ghost var alone := Best(m, source, hyps);
    BestProject(m, source, hyps, logprobs, live, mine);
    EndsProject(m, hyps, live, mine, alone);
    KeepsProject(m, mine, alone);
    assert forall c :: c in Keeps(m, alone) ==> c.row < |hyps|;
    ExtendProject(hyps, live, mine, Keeps(m, alone));

    var kept;
    ended, kept := Distribute(m, live, best, endings);
    if |ended| >= m.beams {
      return;
    }
    RelabelSegment(live, mine, Keeps(m, alone), segment);
    ext, parents := Carry(live, kept, segment);
  }

  lemma RelabelSegment(live: seq<Hypothesis>, rows: seq<nat>, kept: seq<Cand>, segment: nat)
    requires InRange(rows, |live|)
    requires forall k :: 0 <= k < |rows| ==> live[rows[k]].segment == segment
    requires forall c :: c in kept ==> c.row < |rows|
    ensures forall c :: c in Map(Relabel(rows), kept) ==> c.row < |live| && live[c.row].segment == segment
  {
    forall c | c in Map(Relabel(rows), kept) ensures c.row < |live| && live[c.row].segment == segment {
      var i :| 0 <= i < |kept| && Map(Relabel(rows), kept)[i] == c;
      assert kept[i] in kept;
    }
  }

  // ----- the decoder and its cache

  function PickRows<T>(all: seq<T>, rows: seq<nat>): (r: seq<T>)
    requires InRange(rows, |all|)
    ensures |r| == |rows|
    ensures forall i :: 0 <= i < |rows| ==> r[i] == all[rows[i]]
  {
    seq(|rows|, i requires 0 <= i < |rows| => all[rows[i]])
  }

  /** The positions of an encoder row that no mask hides. */
  function Unmasked(tokens: seq<Token>, hidden: seq<bool>): seq<Token>
    requires |hidden| == |tokens|
  {
    if tokens == [] then []
    else
      var k := |tokens| - 1;
      Unmasked(tokens[..k], hidden[..k]) + if hidden[k] then [] else [tokens[k]]
  }

  ghost predicate MaskFits(rows: seq<seq<Token>>, mask: Option<seq<seq<bool>>>) {
    mask.Some? ==> |mask.value| == |rows| && forall i :: 0 <= i < |rows| ==> |mask.value[i]| == |rows[i]|
  }

  /** What attention can see of row `i`: no mask at all hides nothing. */
  function Seen(rows: seq<seq<Token>>, mask: Option<seq<seq<bool>>>, i: nat): seq<Token>
    requires MaskFits(rows, mask) && i < |rows|
  {
    if mask.None? then rows[i] else Unmasked(rows[i], mask.value[i])
  }

  class Decoder {
    const m: Model
    /** What each row's keys and values were computed from. */
    var cache: Option<seq<seq<Entry>>>

    constructor (m: Model)
      ensures this.m == m && cache == None
    {
      this.m := m;
      cache := None;
    }

    method Reset()
      modifies this
      ensures cache == None
    {
      cache := None;
    }

    function Cached(i: nat): seq<Entry>
      requires cache.Some? ==> i < |cache.value|
      reads this
    {
      if cache.None? then [] else cache.value[i]
    }

    /** Feeds one token per row: answers from what is cached, then caches the token. There is no
      * position past the end of the table. */
    method Forward(input: seq<Token>, rows: seq<seq<Token>>, mask: Option<seq<seq<bool>>>, past: nat)
      returns (logprobs: Option<seq<seq<Score>>>)
      requires |rows| == |input| && MaskFits(rows, mask)
      requires cache.Some? ==> |cache.value| == |input|
      modifies this
      ensures logprobs.None? <==> m.maxPositions <= past
      ensures logprobs.None? ==> cache == old(cache)
      ensures logprobs.Some? ==> |logprobs.value| == |input|
      ensures logprobs.Some? ==> forall i :: 0 <= i < |input| ==>
        logprobs.value[i] == m.kernel(Seen(rows, mask, i), old(Cached(i)), input[i], past)
      ensures logprobs.Some? ==> cache.Some? && |cache.value| == |input|
      ensures logprobs.Some? ==> forall i :: 0 <= i < |input| ==>
        cache.value[i] == old(Cached(i)) + [Entry(Seen(rows, mask, i), input[i])]
    {
      if m.maxPositions <= past {
        return None;
      }
      logprobs := Some(seq(|input|, i requires 0 <= i < |input| reads this
                                      requires cache.Some? ==> |cache.value| == |input| =>
        m.kernel(Seen(rows, mask, i), Cached(i), input[i], past)));
      cache := Some(seq(|input|, i requires 0 <= i < |input| reads this
                                 requires cache.Some? ==> |cache.value| == |input| =>
        Cached(i) + [Entry(Seen(rows, mask, i), input[i])]));
    }

    /** Row `i` continues what row `parents[i]` held. */
    method Reorder(parents: seq<nat>)
      requires cache.Some? ==> InRange(parents, |cache.value|)
      modifies this
      ensures old(cache).None? ==> cache == None
      ensures old(cache).Some? ==> cache == Some(PickRows(old(cache).value, parents))
    {
      if cache.Some? {
        cache := Some(PickRows(cache.value, parents));
      }
    }
  }

  lemma AgainstMore(source: seq<Token>, tokens: seq<Token>, token: Token)
    ensures Against(source, tokens + [token]) == Against(source, tokens) + [Entry(source, token)]
    ensures Against(source, []) == []
  {
  }

  // ----- the search of a whole batch

  /** Every segment's rows and endings are those of its own search after `steps` steps. */
  ghost predicate Tracks(m: Model, sources: seq<seq<Token>>, live: seq<Hypothesis>,
                         finished: seq<seq<Hyp>>, steps: nat)
    requires m.Valid()
  {
    && |finished| == |sources|
    && forall s :: 0 <= s < |sources| ==> Solo(Of(live, s), finished[s]) == Run(m, sources[s], steps)
  }

  /** All live hypotheses belong to the batch and are of one length. */
  ghost predicate Uniform(live: seq<Hypothesis>, segments: nat, length: nat) {
    forall i :: 0 <= i < |live| ==> live[i].segment < segments && |live[i].tokens| == length
  }

  /** Row for row the cache stands for the prefix that is one token shorter, read against the row's own source. */
  ghost predicate CacheHolds(cache: Option<seq<seq<Entry>>>, sources: seq<seq<Token>>, live: seq<Hypothesis>, length: nat) {
    && (length == 1 ==> cache == None)
    && (length != 1 ==>
          && cache.Some? && |cache.value| == |live|
          && forall i :: 0 <= i < |live| ==>
               && 1 <= length == |live[i].tokens| && live[i].segment < |sources|
               && cache.value[i] == Against(sources[live[i].segment], live[i].tokens[..length - 1]))
  }

  /** Nothing live, nothing more to do: further steps change nothing. */
  lemma {:induction false} RunIdle(m: Model, source: seq<Token>, n: nat, later: nat)
    requires m.Valid() && n <= later && Run(m, source, n).live == []
    ensures Run(m, source, later) == Run(m, source, n)
    decreases later
  {
    if n != later {
      hide Step;
      RunIdle(m, source, n, later - 1);
      StepIdle(m, source, Run(m, source, later - 1));
    }
  }

  lemma TracksStart(m: Model, sources: seq<seq<Token>>, live: seq<Hypothesis>)
    requires m.Valid()
    requires live == seq(|sources|, (s: nat) => Hypothesis(s, [m.startToken], Fin(0.0)))
    ensures Tracks(m, sources, live, seq(|sources|, _ => []), 0)
    ensures Uniform(live, |sources|, 1)
  {
    forall s | 0 <= s < |sources| ensures Of(live, s) == [Hyp([m.startToken], Fin(0.0))] {
      OfStart(|sources|, m.startToken, s);
    }
  }

  lemma CacheStarts(sources: seq<seq<Token>>, live: seq<Hypothesis>)
    ensures CacheHolds(None, sources, live, 1)
  {
  }

  lemma TracksEnd(m: Model, sources: seq<seq<Token>>, live: seq<Hypothesis>,
                  finished: seq<seq<Hyp>>, steps: nat)
    requires m.Valid() && Tracks(m, sources, live, finished, steps)
    requires steps == m.budget || (live == [] && steps <= m.budget)
    ensures Tracks(m, sources, live, finished, m.budget)
  {
    if live == [] {
      forall s | 0 <= s < |sources|
        ensures Run(m, sources[s], m.budget) == Run(m, sources[s], steps)
      {
        RunIdle(m, sources[s], steps, m.budget);
      }
    }
  }

  /** A segment that still has rows when the table is used up overruns it. */
  lemma SomeOverruns(m: Model, sources: seq<seq<Token>>, live: seq<Hypothesis>, finished: seq<seq<Hyp>>)
    returns (segment: nat)
    requires m.Valid() && Tracks(m, sources, live, finished, m.maxPositions) && m.maxPositions < m.budget
    requires live != [] && live[0].segment < |sources|
    ensures segment < |sources| && Overruns(m, sources[segment])
  {
    hide Run;
    segment := live[0].segment;
    OfHas(live, 0);
    assert Solo(Of(live, segment), finished[segment]) == Run(m, sources[segment], m.maxPositions);
  }

  lemma {:induction false} OfHas(live: seq<Hypothesis>, i: nat)
    requires i < |live|
    ensures Of(live, live[i].segment) != []
  {
    if i < |live| - 1 { OfHas(live[..|live| - 1], i); }
  }

  lemma {:induction false} OfNone(segment: nat)
    ensures Of([], segment) == []
  {
  }

  /** A batch that is through, within the table, had no segment that overruns it. */
  lemma NoneOverruns(m: Model, sources: seq<seq<Token>>, live: seq<Hypothesis>, finished: seq<seq<Hyp>>, steps: nat)
    requires m.Valid() && Tracks(m, sources, live, finished, steps)
    requires steps <= m.maxPositions && (steps == m.budget || live == [])
    ensures forall s :: 0 <= s < |sources| ==> !Overruns(m, sources[s])
  {
    hide Run;
    forall s | 0 <= s < |sources| ensures !Overruns(m, sources[s]) {
      assert Solo(Of(live, s), finished[s]) == Run(m, sources[s], steps);
      if live == [] {
        OfNone(s);
        RunIdle(m, sources[s], steps, m.maxPositions);
      }
    }
  }

  /** The rows a step reads answer for each hypothesis what its whole prefix would. */
  lemma RowsAgree(m: Model, sources: seq<seq<Token>>, live: seq<Hypothesis>, logprobs: seq<seq<Score>>,
                  length: nat, segment: nat)
    requires m.Valid() && 1 <= length && Uniform(live, |sources|, length) && segment < |sources|
    requires |logprobs| == |live|
    requires forall i :: 0 <= i < |live| ==>
      && live[i].segment < |sources| && live[i].tokens != []
      && logprobs[i] == m.LogProbs(sources[live[i].segment], live[i].tokens)
    ensures Started(Of(live, segment))
    ensures SameRows(m, sources[segment], Of(live, segment), logprobs, live, Mine(live, segment))
  {
    MineOf(live, segment);
    var hyps := Of(live, segment);
    forall h | h in hyps ensures h.tokens != [] {
      var k :| 0 <= k < |hyps| && hyps[k] == h;
      assert h == live[Mine(live, segment)[k]].Plain();
    }
  }

  /** The first `|ended|` segments have taken step `steps`, the others have no rows yet. */
  ghost predicate Advanced(m: Model, sources: seq<seq<Token>>, next: seq<Hypothesis>,
                           ended: seq<seq<Hyp>>, steps: nat)
    requires m.Valid()
  {
    && |ended| <= |sources|
    && (forall s :: 0 <= s < |ended| ==> Solo(Of(next, s), ended[s]) == Run(m, sources[s], steps))
    && (forall s :: |ended| <= s < |sources| ==> Of(next, s) == [])
  }

  lemma AdvancedMore(m: Model, sources: seq<seq<Token>>, next: seq<Hypothesis>, ended: seq<seq<Hyp>>,
                     ext: seq<Hypothesis>, endings: seq<Hyp>, steps: nat)
    requires m.Valid() && Advanced(m, sources, next, ended, steps) && |ended| < |sources|
    requires forall h :: h in ext ==> h.segment == |ended|
    requires Solo(PlainAll(ext), endings) == Run(m, sources[|ended|], steps)
    ensures Advanced(m, sources, next + ext, ended + [endings], steps)
  {
    forall s | 0 <= s < |sources|
      ensures Of(next + ext, s) == if s == |ended| then PlainAll(ext) else Of(next, s)
    {
      OfAppend(next, ext, s);
      OfUniform(ext, |ended|, s);
      assert Of(next, s) + [] == Of(next, s);
    }
  }

  lemma DescendsMore(live: seq<Hypothesis>, next: seq<Hypothesis>, parents: seq<nat>,
                     ext: seq<Hypothesis>, from: seq<nat>)
    requires Descends(next, parents, live) && Descends(ext, from, live)
    ensures Descends(next + ext, parents + from, live)
  {
  }

  lemma StepOf(m: Model, source: seq<Token>, live: seq<Hypothesis>, segment: nat, finished: seq<Hyp>, steps: nat)
    requires m.Valid() && Started(Of(live, segment))
    requires Solo(Of(live, segment), finished) == Run(m, source, steps)
    ensures Step(m, source, Solo(Of(live, segment), finished)) == Run(m, source, steps + 1)
  {
  }

  ghost predicate Answers(m: Model, sources: seq<seq<Token>>, live: seq<Hypothesis>, logprobs: seq<seq<Score>>) {
    && |logprobs| == |live|
    && forall i :: 0 <= i < |live| ==>
         && live[i].segment < |sources| && live[i].tokens != []
         && logprobs[i] == m.LogProbs(sources[live[i].segment], live[i].tokens)
  }

  /** One step of the batch: every segment advanced on its own, in segment order. */
  method StepBatch(m: Model, ghost sources: seq<seq<Token>>, logprobs: seq<seq<Score>>,
                   live: seq<Hypothesis>, finished: seq<seq<Hyp>>, ghost steps: nat)
    returns (next: seq<Hypothesis>, ended: seq<seq<Hyp>>, parents: seq<nat>)
    requires m.Valid() && Tracks(m, sources, live, finished, steps)
    requires Uniform(live, |sources|, steps + 1) && Answers(m, sources, live, logprobs)
    ensures Tracks(m, sources, next, ended, steps + 1)
    ensures Descends(next, parents, live)
  {
    hide Step, Run, Mine, SameRows;
    next, ended, parents := [], [], [];
    for segment := 0 to |finished|
      invariant |ended| == segment
      invariant Advanced(m, sources, next, ended, steps + 1)
      invariant Descends(next, parents, live)
    {
      RowsAgree(m, sources, live, logprobs, steps + 1, segment);
      var endings, ext, from := AdvanceSegment(m, sources[segment], logprobs, live, segment, finished[segment]);
      StepOf(m, sources[segment], live, segment, finished[segment], steps);
      AdvancedMore(m, sources, next, ended, ext, endings, steps + 1);
      DescendsMore(live, next, parents, ext, from);
      next, parents := next + ext, parents + from;
      ended := ended + [endings];
    }
  }

  /** The rows of a full cache hold each its own hypothesis, read against its own source. */
  ghost predicate CacheFull(cache: seq<seq<Entry>>, sources: seq<seq<Token>>, live: seq<Hypothesis>) {
    && |cache| == |live|
    && forall i :: 0 <= i < |live| ==>
         live[i].segment < |sources| && cache[i] == Against(sources[live[i].segment], live[i].tokens)
  }

  lemma CacheWas(cache: Option<seq<seq<Entry>>>, sources: seq<seq<Token>>, live: seq<Hypothesis>, past: nat)
    requires CacheHolds(cache, sources, live, past + 1) && Uniform(live, |sources|, past + 1)
    ensures cache.Some? ==> |cache.value| == |live|
    ensures forall i :: 0 <= i < |live| ==>
      (if cache.None? then [] else cache.value[i]) == Against(sources[live[i].segment], live[i].tokens[..past])
  {
  }

  /** Each row answered from its cache, and fed its last token, is answered for its whole prefix and caches it. */
  lemma RowsDecoded(m: Model, sources: seq<seq<Token>>, live: seq<Hypothesis>, before: seq<seq<Entry>>, after: seq<seq<Entry>>,
                    logprobs: seq<seq<Score>>, past: nat)
    requires Uniform(live, |sources|, past + 1) && |before| == |after| == |logprobs| == |live|
    requires forall i :: 0 <= i < |live| ==> before[i] == Against(sources[live[i].segment], live[i].tokens[..past])
    requires forall i :: 0 <= i < |live| ==> after[i] == before[i] + [Entry(sources[live[i].segment], live[i].tokens[past])]
    requires forall i :: 0 <= i < |live| ==>
      logprobs[i] == m.kernel(sources[live[i].segment], before[i], live[i].tokens[past], past)
    ensures Answers(m, sources, live, logprobs) && CacheFull(after, sources, live)
  {
    hide Against;
    forall i | 0 <= i < |live| ensures after[i] == Against(sources[live[i].segment], live[i].tokens) {
      AgainstMore(sources[live[i].segment], live[i].tokens[..past], live[i].tokens[past]);
      assert live[i].tokens == live[i].tokens[..past] + [live[i].tokens[past]];
    }
  }

  /** Moving the rows of a full cache after their parents leaves each row its own prefix, and none what
    * was read against another segment's source. */
  lemma CacheMoves(cache: seq<seq<Entry>>, sources: seq<seq<Token>>, live: seq<Hypothesis>, length: nat,
                   next: seq<Hypothesis>, parents: seq<nat>)
    requires 1 <= length && Uniform(live, |sources|, length) && CacheFull(cache, sources, live)
    requires Descends(next, parents, live)
    ensures Uniform(next, |sources|, length + 1)
    ensures CacheHolds(Some(PickRows(cache, parents)), sources, next, length + 1)
  {
    hide Against;
  }

  // ----- padding a group to its longest member

  function PadTokens(m: Model, source: seq<Token>, width: nat): (r: seq<Token>)
    requires |source| <= width
    ensures |r| == width
  {
    source + seq(width - |source|, _ => m.padToken)
  }

  function PadMask(source: seq<Token>, width: nat): (r: seq<bool>)
    requires |source| <= width
    ensures |r| == width
  {
    seq(|source|, _ => false) + seq(width - |source|, _ => true)
  }

  lemma {:induction false} UnmaskedShown(tokens: seq<Token>, hidden: seq<bool>)
    requires |hidden| == |tokens| && forall i :: 0 <= i < |hidden| ==> !hidden[i]
    ensures Unmasked(tokens, hidden) == tokens
  {
    if tokens != [] {
      UnmaskedShown(tokens[..|tokens| - 1], hidden[..|tokens| - 1]);
    }
  }

  /** The mask takes exactly the padding back off. */
  lemma {:induction false} UnmaskedPad(m: Model, source: seq<Token>, width: nat)
    requires |source| <= width
    ensures Unmasked(PadTokens(m, source, width), PadMask(source, width)) == source
    decreases width
  {
    var tokens, hidden := PadTokens(m, source, width), PadMask(source, width);
    if |source| == width {
      assert tokens == source;
      UnmaskedShown(tokens, hidden);
    } else {
      UnmaskedPad(m, source, width - 1);
      assert tokens[..width - 1] == PadTokens(m, source, width - 1);
      assert hidden[..width - 1] == PadMask(source, width - 1);
    }
  }

  /** The tokens of a segment, and its place in the list that is answered. */
  datatype Job = Job(index: nat, source: seq<Token>)

  /** `n` of the tokens a text is encoded to: all of them, or as many as leave room for an end token. */
  predicate Room(m: Model, ids: seq<Token>, n: nat) {
    n <= |ids| && n < m.maxPositions && (n < |ids| ==> n + 1 == m.maxPositions)
  }

  /** `source` is that many of `ids`, with an end token behind them unless they end in one. */
  ghost predicate EncoderInput(m: Model, ids: seq<Token>, source: seq<Token>) {
    exists n: nat :: Room(m, ids, n)
      && source == ids[..n] + if n > 0 && ids[n - 1] == m.eosToken then [] else [m.eosToken]
  }

  /** There is one such input; a text whose tokens fit goes in whole. */
  lemma OneInput(m: Model, ids: seq<Token>, source: seq<Token>, other: seq<Token>)
    requires EncoderInput(m, ids, source)
    ensures EncoderInput(m, ids, other) ==> other == source
    ensures |ids| < m.maxPositions ==> source == ids || source == ids + [m.eosToken]
  {
  }

  const LongestFirst: (Job, Job) -> bool := (a: Job, b: Job) => |a.source| > |b.source|

  /** A group is cut so that its beams make at most this many rows. */
  const MAX_BATCH_ROWS: nat := 32

  class Engine {
    const m: Model
    const decoder: Decoder
    /** Source tokens of a text, and the text of target tokens, when there are any. */
    const encode: string -> Option<seq<Token>>
    const decode: seq<Token> -> Option<string>

    constructor (m: Model, encode: string -> Option<seq<Token>>, decode: seq<Token> -> Option<string>)
      ensures this.m == m && this.encode == encode && this.decode == decode
      ensures decoder.m == m && fresh(decoder)
    {
      this.m := m;
      this.encode := encode;
      this.decode := decode;
      decoder := new Decoder(m);
    }

    /** Searches a batch; every segment is answered as its own search answers it, unless one of them
      * runs past the position table, which fails them all. */
    method Search(encoder: seq<seq<Token>>, padMask: Option<seq<seq<bool>>>) returns (answers: Option<seq<seq<Token>>>)
      requires m.Valid() && decoder.m == m && decoder.cache == None
      requires encoder != [] && MaskFits(encoder, padMask)
      requires forall s :: 0 <= s < |encoder| ==> |encoder[s]| <= m.maxPositions
      modifies decoder
      ensures answers.None? <==> exists s :: 0 <= s < |encoder| && Overruns(m, Seen(encoder, padMask, s))
      ensures answers.Some? ==> |answers.value| == |encoder|
      ensures answers.Some? ==>
        forall s :: 0 <= s < |encoder| ==> answers.value[s] == Answer(m, Seen(encoder, padMask, s))
    {
      hide Run, Step, Of, Mine, Answer, Overruns, Tracks, CacheHolds, CacheFull, Against;
      ghost var sources := seq(|encoder|, s requires 0 <= s < |encoder| => Seen(encoder, padMask, s));
      var live := seq(|encoder|, (s: nat) => Hypothesis(s, [m.startToken], Fin(0.0)));
      var finished: seq<seq<Hyp>> := seq(|encoder|, _ => []);
      TracksStart(m, sources, live);
      CacheStarts(sources, live);

      var mapping: seq<nat> := [];
      var encoderRows, crossMask := encoder, padMask;
      var step := 0;
      while step < m.budget
        invariant step <= m.budget && step <= m.maxPositions && live != []
        invariant Tracks(m, sources, live, finished, step)
        invariant Uniform(live, |sources|, step + 1)
        invariant CacheHolds(decoder.cache, sources, live, step + 1)
        invariant mapping != [] ==> Expanded(encoder, padMask, mapping, encoderRows, crossMask)
      {
        var ofRow := seq(|live|, i requires 0 <= i < |live| => live[i].segment);
        if ofRow != mapping {
          encoderRows := PickRows(encoder, ofRow);
          crossMask := if padMask.None? then None else Some(PickRows(padMask.value, ofRow));
          mapping := ofRow;
        }
        var logprobs := DecodeRows(live, encoderRows, crossMask, sources, step);
        if logprobs.None? {
          var s := SomeOverruns(m, sources, live, finished);
          assert Overruns(m, Seen(encoder, padMask, s));
          return None;
        }
        var next, ended, parents := StepBatch(m, sources, logprobs.value, live, finished, step);
        CacheMoves(decoder.cache.value, sources, live, step + 1, next, parents);
        live, finished := next, ended;
        step := step + 1;
        if live == [] {
          break;
        }
        decoder.Reorder(parents);
      }
      NoneOverruns(m, sources, live, finished, step);
      assert forall s :: 0 <= s < |encoder| ==> sources[s] == Seen(encoder, padMask, s);
      TracksEnd(m, sources, live, finished, step);
      var picked := PickAnswers(live, finished, sources);
      answers := Some(picked);
    }

    /** Feeds the last token of every row; the cache answers for the rest of the prefix. */
    method DecodeRows(live: seq<Hypothesis>, rows: seq<seq<Token>>, mask: Option<seq<seq<bool>>>,
                      ghost sources: seq<seq<Token>>, ghost step: nat)
      returns (logprobs: Option<seq<seq<Score>>>)
      requires m.Valid() && decoder.m == m && live != []
      requires Uniform(live, |sources|, step + 1) && CacheHolds(decoder.cache, sources, live, step + 1)
      requires |rows| == |live| && MaskFits(rows, mask)
      requires forall i :: 0 <= i < |live| ==> Seen(rows, mask, i) == sources[live[i].segment]
      modifies decoder
      ensures logprobs.None? <==> m.maxPositions <= step
      ensures logprobs.Some? ==> Answers(m, sources, live, logprobs.value)
      ensures logprobs.Some? ==> decoder.cache.Some? && |decoder.cache.value| == |live|
      ensures logprobs.Some? ==> CacheFull(decoder.cache.value, sources, live)
    {
      hide Seen, Against, Answers, CacheFull;
      var past := |live[0].tokens| - 1;
      var last := seq(|live|, i requires 0 <= i < |live| && past < |live[i].tokens| => live[i].tokens[past]);
      ghost var before := seq(|live|, i requires 0 <= i < |live| => Against(sources[live[i].segment], live[i].tokens[..past]));
      CacheWas(decoder.cache, sources, live, past);
      assert forall i :: 0 <= i < |live| ==> decoder.Cached(i) == before[i];
      logprobs := decoder.Forward(last, rows, mask, past);
      if logprobs.Some? { RowsDecoded(m, sources, live, before, decoder.cache.value, logprobs.value, past); }
    }

    /** The best hypothesis of every segment, finished or still running. */
    method PickAnswers(live: seq<Hypothesis>, finished: seq<seq<Hyp>>, ghost sources: seq<seq<Token>>)
      returns (answers: seq<seq<Token>>)
      requires m.Valid() && Tracks(m, sources, live, finished, m.budget)
      ensures |answers| == |sources|
      ensures forall s :: 0 <= s < |sources| ==> answers[s] == Answer(m, sources[s])
    {
      hide Run;
      answers := [];
      for s := 0 to |finished|
        invariant |answers| == s
        invariant forall t :: 0 <= t < s ==> answers[t] == Answer(m, sources[t])
      {
        AlwaysAnswered(m, sources[s], m.budget);
        assert Solo(Of(live, s), finished[s]) == Run(m, sources[s], m.budget);
        answers := answers + [Pick(finished[s] + Of(live, s)).tokens];
      }
    }

    /** Source tokens as the encoder wants them: all of the text that the position table has room for
      * beside an end token, and ended once. */
    function Tokenize(text: string): (r: Option<seq<Token>>)
      requires 1 <= m.maxPositions
      ensures r.Some? <==> encode(text).Some?
      ensures r.Some? ==> 1 <= |r.value| <= m.maxPositions && r.value[|r.value| - 1] == m.eosToken
      ensures r.Some? ==> EncoderInput(m, encode(text).value, r.value)
    {
      var encoded := encode(text);
      if encoded.None? then None
      else
        var ids := encoded.value;
        var tokens := if |ids| <= m.maxPositions - 1 then ids else ids[..m.maxPositions - 1];
        assert Room(m, ids, |tokens|) && tokens == ids[..|tokens|];
        Some(if tokens == [] || tokens[|tokens| - 1] != m.eosToken then tokens + [m.eosToken] else tokens)
    }

    /** What one text becomes when nothing else travels with it. */
    ghost function Translation(text: string): Option<string>
      requires m.Valid() && 1 <= m.maxPositions
    {
      if Blank(text) then Some(text)
      else if Tokenize(text).None? then None
      else Decoded(Tokenize(text).value)
    }

    /** Pads a group to its longest member; a mask only if there is padding to hide. */
    method PadGroup(group: seq<Job>) returns (padded: seq<seq<Token>>, padMask: Option<seq<seq<bool>>>)
      requires forall i :: 0 <= i < |group| ==> |group[i].source| <= m.maxPositions
      ensures |padded| == |group| && MaskFits(padded, padMask)
      ensures forall i :: 0 <= i < |group| ==> |padded[i]| <= m.maxPositions
      ensures forall i :: 0 <= i < |group| ==> Seen(padded, padMask, i) == group[i].source
      ensures forall i, j :: 0 <= i < |group| && 0 <= j < |group| ==> |padded[i]| == |padded[j]|
      ensures forall i, k :: 0 <= i < |group| && |group[i].source| <= k < |padded[i]| ==> padded[i][k] == m.padToken
    {
      var width := 0;
      for i := 0 to |group|
        invariant forall k :: 0 <= k < i ==> |group[k].source| <= width
        invariant width <= m.maxPositions
      {
        width := if |group[i].source| > width then |group[i].source| else width;
      }
      padded := [];
      var mask: seq<seq<bool>> := [];
      var hides := false;
      for i := 0 to |group|
        invariant |padded| == |mask| == i
        invariant forall k :: 0 <= k < i ==>
          && padded[k] == PadTokens(m, group[k].source, width)
          && mask[k] == PadMask(group[k].source, width)
        invariant !hides <==> forall k :: 0 <= k < i ==> |group[k].source| == width
      {
        padded := padded + [PadTokens(m, group[i].source, width)];
        mask := mask + [PadMask(group[i].source, width)];
        hides := hides || |group[i].source| < width;
      }
      padMask := if hides then Some(mask) else None;
      forall i | 0 <= i < |group| ensures Seen(padded, padMask, i) == group[i].source {
        UnmaskedPad(m, group[i].source, width);
      }
    }

    /** What the search of one source comes to when nothing else is in the batch. */
    ghost function Decoded(source: seq<Token>): Option<string>
      requires m.Valid()
    {
      if Overruns(m, source) then None
      else
        AnswerRooted(m, source);
        decode(Answer(m, source)[1..])
    }

    /** One group through the model: all of its sources answered, or none. */
    method TranslateGroup(group: seq<Job>) returns (r: Option<seq<string>>)
      requires m.Valid() && decoder.m == m && group != []
      requires forall i :: 0 <= i < |group| ==> |group[i].source| <= m.maxPositions
      modifies decoder
      ensures r.Some? <==> forall i :: 0 <= i < |group| ==> Decoded(group[i].source).Some?
      ensures r.Some? ==> |r.value| == |group|
      ensures r.Some? ==> forall i :: 0 <= i < |group| ==> Some(r.value[i]) == Decoded(group[i].source)
    {
      hide Model.Valid, Answer, Seen, MaskFits, Overruns;
      decoder.Reset();
      var padded, padMask := PadGroup(group);
      var answers := Search(padded, padMask);
      if answers.None? {
        ghost var s :| 0 <= s < |padded| && Overruns(m, Seen(padded, padMask, s));
        assert Decoded(group[s].source).None?;
        return None;
      }
      forall i | 0 <= i < |group|
        ensures !Overruns(m, group[i].source) && answers.value[i] == Answer(m, group[i].source) && answers.value[i] != []
      {
        assert Seen(padded, padMask, i) == group[i].source;
        AnswerRooted(m, group[i].source);
      }
      var texts: seq<string> := [];
      for i := 0 to |answers.value|
        invariant |texts| == i
        invariant forall k :: 0 <= k < i ==> Some(texts[k]) == decode(answers.value[k][1..])
      {
        var text := decode(answers.value[i][1..]);
        if text.None? {
          assert Decoded(group[i].source).None?;
          return None;
        }
        texts := texts + [text.value];
      }
      return Some(texts);
    }

    /** Every job is a segment that has something to say, and holds that segment's tokens. */
    ghost predicate JobsOf(jobs: seq<Job>, segments: seq<string>, n: nat)
      requires 1 <= m.maxPositions
    {
      && n <= |segments|
      && (forall j :: j in jobs ==>
            j.index < n && !Blank(segments[j.index]) && Tokenize(segments[j.index]) == Some(j.source))
      && (forall i :: 0 <= i < n && !Blank(segments[i]) ==>
            Tokenize(segments[i]).Some? && Job(i, Tokenize(segments[i]).value) in jobs)
    }

    lemma SortKeepsJobs(jobs: seq<Job>, segments: seq<string>, n: nat)
      requires 1 <= m.maxPositions && JobsOf(jobs, segments, n)
      ensures JobsOf(Sort(jobs, LongestFirst), segments, n)
    {
      SortPermutes(jobs, LongestFirst);
      var sorted := Sort(jobs, LongestFirst);
      forall j ensures j in sorted <==> j in jobs {
        assert j in sorted <==> j in multiset(sorted);
        assert j in jobs <==> j in multiset(jobs);
      }
    }

    /** Longer sources come first, so that each is grouped with its like. */
    lemma LongestComeFirst(jobs: seq<Job>)
      ensures var sorted := Sort(jobs, LongestFirst);
        forall i, j :: 0 <= i < j < |sorted| ==> |sorted[i].source| >= |sorted[j].source|
    {
      hide Sort;
      SortSorts(jobs, LongestFirst);
      var sorted := Sort(jobs, LongestFirst);
      forall i, j | 0 <= i < j < |sorted| ensures |sorted[i].source| >= |sorted[j].source| {
        assert !LongestFirst(sorted[j], sorted[i]);
      }
    }

    ghost predicate Translated(segments: seq<string>, i: nat, translations: seq<string>)
      requires m.Valid() && 1 <= m.maxPositions
    {
      i < |segments| == |translations| && Some(translations[i]) == Translation(segments[i])
    }

    /** Tokenizes what has something to say, and answers the rest with itself. */
    method CollectJobs(segments: seq<string>) returns (jobs: Option<seq<Job>>, translations: seq<string>)
      requires m.Valid() && 1 <= m.maxPositions
      ensures jobs.None? ==> exists i :: 0 <= i < |segments| && Translation(segments[i]).None?
      ensures jobs.Some? ==> |translations| == |segments| && JobsOf(jobs.value, segments, |segments|)
      ensures jobs.Some? ==> forall k :: 0 <= k < |segments| && Blank(segments[k]) ==> translations[k] == segments[k]
    {
      hide Model.Valid, Decoded, Trim;
      translations := seq(|segments|, _ => "");
      var collected: seq<Job> := [];
      for i := 0 to |segments|
        invariant |translations| == |segments|
        invariant forall k :: 0 <= k < i && Blank(segments[k]) ==> translations[k] == segments[k]
        invariant JobsOf(collected, segments, i)
      {
        var text := segments[i];
        if Blank(text) {
          translations := translations[i := text];
        } else {
          var source := Tokenize(text);
          if source.None? {
            assert Translation(segments[i]).None?;
            return None, translations;
          }
          collected := collected + [Job(i, source.value)];
        }
      }
      return Some(collected), translations;
    }

    /** Puts the answers of one group where its jobs say. */
    method Scatter(group: seq<Job>, answers: seq<string>, segments: seq<string>, before: seq<string>)
      returns (translations: seq<string>)
      requires m.Valid() && 1 <= m.maxPositions && |answers| == |group| && |before| == |segments|
      requires forall k :: 0 <= k < |group| ==>
        group[k].index < |segments| && Translation(segments[group[k].index]) == Some(answers[k])
      ensures |translations| == |segments|
      ensures forall i :: 0 <= i < |segments| && Translated(segments, i, before) ==> Translated(segments, i, translations)
      ensures forall k :: 0 <= k < |group| ==> Translated(segments, group[k].index, translations)
    {
      hide Translation, Model.Valid;
      translations := before;
      for k := 0 to |group|
        invariant |translations| == |segments|
        invariant forall i :: 0 <= i < |segments| && Translated(segments, i, before) ==> Translated(segments, i, translations)
        invariant forall j :: 0 <= j < k ==> Translated(segments, group[j].index, translations)
      {
        translations := translations[group[k].index := answers[k]];
      }
    }

    lemma JobTranslation(jobs: seq<Job>, segments: seq<string>, k: nat)
      requires m.Valid() && 1 <= m.maxPositions && JobsOf(jobs, segments, |segments|) && k < |jobs|
      ensures jobs[k].index < |segments| && Translation(segments[jobs[k].index]) == Decoded(jobs[k].source)
    {
      hide Decoded;
      assert jobs[k] in jobs;
    }

    lemma JobFits(jobs: seq<Job>, segments: seq<string>, k: nat)
      requires 1 <= m.maxPositions && JobsOf(jobs, segments, |segments|) && k < |jobs|
      ensures |jobs[k].source| <= m.maxPositions
    {
      assert jobs[k] in jobs;
    }

    /** How many segments fill the decoder batch. */
    function PerGroup(): (n: nat)
      requires 1 <= m.beams
      ensures 1 <= n && (n == 1 || n * m.beams <= 32) && (n + 1) * m.beams > 32
    {
      if MAX_BATCH_ROWS / m.beams >= 1 then MAX_BATCH_ROWS / m.beams else 1
    }

    /** Runs the jobs group by group and files every answer. */
    method TranslateJobs(jobs: seq<Job>, segments: seq<string>, before: seq<string>)
      returns (r: Option<seq<string>>)
      requires m.Valid() && 1 <= m.beams && 1 <= m.maxPositions
      requires decoder.m == m && |before| == |segments|
      requires JobsOf(jobs, segments, |segments|)
      modifies decoder
      ensures r.None? ==> exists i :: 0 <= i < |segments| && Translation(segments[i]).None?
      ensures r.Some? ==> |r.value| == |segments|
      ensures r.Some? ==>
        forall i :: 0 <= i < |segments| && Translated(segments, i, before) ==> Translated(segments, i, r.value)
      ensures r.Some? ==> forall k :: 0 <= k < |jobs| ==> Translated(segments, jobs[k].index, r.value)
    {
      hide Model.Valid, Decoded, Translation, JobsOf, Translated;
      var translations := before;
      var perGroup := PerGroup();
      var next := 0;
      while next < |jobs|
        invariant next <= |jobs| && |translations| == |segments|
        invariant forall i :: 0 <= i < |segments| && Translated(segments, i, before) ==> Translated(segments, i, translations)
        invariant forall k :: 0 <= k < next ==>
          jobs[k].index < |segments| && Translated(segments, jobs[k].index, translations)
      {
        var end := if next + perGroup <= |jobs| then next + perGroup else |jobs|;
        var group := jobs[next..end];
        forall k | 0 <= k < |group| ensures |group[k].source| <= m.maxPositions {
          JobFits(jobs, segments, next + k);
        }
        var answers := TranslateGroup(group);
        forall k | 0 <= k < |group|
          ensures group[k].index < |segments| && Translation(segments[group[k].index]) == Decoded(group[k].source)
        {
          JobTranslation(jobs, segments, next + k);
        }
        if answers.None? {
          return None;
        }
        translations := Scatter(group, answers.value, segments, translations);
        forall k | 0 <= k < end
          ensures jobs[k].index < |segments| && Translated(segments, jobs[k].index, translations)
        {
          assert k >= next ==> jobs[k] == group[k - next];
        }
        next := end;
      }
      return Some(translations);
    }

    /** `translation` is what the search makes of all of the text that goes into the encoder; text with
      * nothing to say is answered with itself. */
    ghost predicate TranslatesTo(text: string, translation: string)
      requires m.Valid()
    {
      && (Blank(text) ==> translation == text)
      && (!Blank(text) ==> encode(text).Some? && exists source ::
            EncoderInput(m, encode(text).value, source) && Decoded(source) == Some(translation))
    }

    lemma TranslationIs(text: string)
      requires m.Valid() && 1 <= m.maxPositions
      ensures Translation(text).Some? ==> TranslatesTo(text, Translation(text).value)
    {
      hide Decoded, Blank, EncoderInput;
    }

    /** Translates a batch: each text exactly as it would be translated alone, or none of them. */
    method Translate(segments: seq<string>) returns (r: Option<seq<string>>)
      requires m.Valid() && 1 <= m.maxPositions && decoder.m == m
      modifies decoder
      ensures r.Some? <==> forall i :: 0 <= i < |segments| ==> Translation(segments[i]).Some?
      ensures r.Some? ==> |r.value| == |segments|
      ensures r.Some? ==> forall i :: 0 <= i < |segments| ==> Some(r.value[i]) == Translation(segments[i])
      ensures r.Some? ==> forall i :: 0 <= i < |segments| ==> TranslatesTo(segments[i], r.value[i])
    {
      hide Decoded, Translation, Trim, Tokenize, TranslatesTo;
      var collected, translations := CollectJobs(segments);
      if collected.None? {
        return None;
      }
      SortKeepsJobs(collected.value, segments, |segments|);
      var jobs := Sort(collected.value, LongestFirst);
      r := TranslateJobs(jobs, segments, translations);
      if r.Some? {
        forall i | 0 <= i < |segments|
          ensures Some(r.value[i]) == Translation(segments[i]) && TranslatesTo(segments[i], r.value[i])
        {
          if Blank(segments[i]) {
            BlankTranslation(segments[i]);
            assert Translated(segments, i, translations);
            assert Translated(segments, i, r.value);
          } else {
            var k :| 0 <= k < |jobs| && jobs[k] == Job(i, Tokenize(segments[i]).value);
            assert Translated(segments, jobs[k].index, r.value);
          }
          TranslationIs(segments[i]);
        }
      }
    }

    lemma BlankTranslation(text: string)
      requires m.Valid() && 1 <= m.maxPositions && Blank(text)
      ensures Translation(text) == Some(text)
    {
    }
  }

  /** The encoder states and mask of a batch, one row per live hypothesis. */
  ghost predicate Expanded(encoder: seq<seq<Token>>, padMask: Option<seq<seq<bool>>>, mapping: seq<nat>,
                           rows: seq<seq<Token>>, mask: Option<seq<seq<bool>>>)
  {
    && MaskFits(encoder, padMask) && InRange(mapping, |encoder|)
    && rows == PickRows(encoder, mapping)
    && mask == if padMask.None? then None else Some(PickRows(padMask.value, mapping))
  }
}
