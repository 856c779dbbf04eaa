/** One batch of the translation worker: what is asked of the engine, and what is stored. */
module Batch {
  import opened CacheTheorems
  import opened GlossCache
  import opened GlossKey
  import opened GlossPlan
  import opened Jobs
  import opened Lists
  import opened Sentence
  import opened Slots
  import opened Wrappers
  import Worker

  /** An engine answers a list of segments, or fails: an error and a caught panic are one here. */
  datatype Engine = Engine(version: string, translate: seq<string> -> Option<seq<string>>)

  // ----- the engine, and what is stored

  ghost function PlansOf(u: Alphabet, sources: seq<Source>): (r: seq<Plan>)
    ensures |r| == |sources|
  {
    seq(|sources|, i requires 0 <= i < |sources| => PlanFor(u, sources[i].raw, sources[i].rules))
  }

  function Asks(plans: seq<Plan>): (r: seq<seq<string>>)
    ensures |r| == |plans|
  {
    seq(|plans|, i requires 0 <= i < |plans| => Segments(plans[i]))
  }

  function Through(slots: seq<nat>, translations: seq<string>): (r: seq<string>)
    requires InRange(slots, |translations|)
    ensures |r| == |slots|
  {
    seq(|slots|, j requires 0 <= j < |slots| => translations[slots[j]])
  }

  ghost predicate AllInRange(slots: seq<seq<nat>>, n: nat) { forall i :: 0 <= i < |slots| ==> InRange(slots[i], n) }

  ghost function Glosses(plans: seq<Plan>, slots: seq<seq<nat>>, translations: seq<string>): (r: seq<string>)
    requires |slots| == |plans| && AllInRange(slots, |translations|)
    ensures |r| == |plans|
  {
    seq(|plans|, i requires 0 <= i < |plans| => RestoreGloss(plans[i], Through(slots[i], translations)))
  }

  lemma SlotsInRange(lists: seq<seq<string>>)
    ensures AllInRange(BatchOf(lists).slots, |BatchOf(lists).segments|)
  {
    hide Firsts, IndexIn, Flat;
    BatchFits(lists);
    var b := BatchOf(lists);
    forall i, j | 0 <= i < |lists| && 0 <= j < |lists[i]| ensures b.slots[i][j] < |b.segments| {
    }
  }

  /** What is asked of an engine for the glosses of `sources`. */
  ghost function AskedFor(u: Alphabet, sources: seq<Source>): Asked { BatchOf(Asks(PlansOf(u, sources))) }

  /** The glosses of `sources` by what the engine replied, unless that is a failure or the wrong number
    * of translations; nothing is asked where nothing needs translating. */
  ghost function OutcomeOf(u: Alphabet, sources: seq<Source>, reply: Option<seq<string>>): (r: Option<seq<string>>)
    ensures r.Some? ==> |r.value| == |sources|
  {
    var plans := PlansOf(u, sources);
    var b := BatchOf(Asks(plans));
    SlotsInRange(Asks(plans));
    if b.segments == [] then Some(Glosses(plans, b.slots, []))
    else if reply.Some? && |reply.value| == |b.segments| then Some(Glosses(plans, b.slots, reply.value))
    else None
  }

  ghost function Outcome(u: Alphabet, engine: Engine, sources: seq<Source>): (r: Option<seq<string>>)
    ensures r.Some? ==> |r.value| == |sources|
  {
    OutcomeOf(u, sources, engine.translate(AskedFor(u, sources).segments))
  }

  /** `takes` says of each key whether the disk takes the write. */
  function InsertAll(s: Lru, capacity: nat, version: string, sources: seq<Source>, glosses: seq<string>, takes: Key -> bool): Lru
    requires |glosses| == |sources|
  {
    if sources == [] then s
    else
      var k := |sources| - 1;
      var key := sources[k].KeyFor(version);
      InsertAll(s, capacity, version, sources[..k], glosses[..k], takes).Insert(capacity, key, glosses[k], takes(key))
  }

  lemma InsertAllNext(s: Lru, capacity: nat, version: string, sources: seq<Source>, glosses: seq<string>, takes: Key -> bool, i: nat)
    requires |glosses| == |sources| && i < |sources|
    ensures var key := sources[i].KeyFor(version);
      InsertAll(s, capacity, version, sources[..i + 1], glosses[..i + 1], takes)
      == InsertAll(s, capacity, version, sources[..i], glosses[..i], takes).Insert(capacity, key, glosses[i], takes(key))
  {
    hide Encode;
    assert sources[..i + 1][..i] == sources[..i] && glosses[..i + 1][..i] == glosses[..i];
  }

  method Store(cache: GlossCache, version: string, sources: seq<Source>, plans: seq<Plan>, slots: seq<seq<nat>>,
    translations: seq<string>, takes: Key -> bool) returns (stored: nat)
    requires cache.Valid() && |plans| == |sources| == |slots| && AllInRange(slots, |translations|)
    modifies cache
    ensures cache.Valid() && stored == |sources|
    ensures cache.State() ==
      InsertAll(old(cache.State()), cache.capacity, version, sources, Glosses(plans, slots, translations), takes)
  {
    hide RestoreGloss, Encode, InsertAll, Glosses;
    ghost var glosses := Glosses(plans, slots, translations);
    InsertNone(cache.State(), cache.capacity, version, takes);
    for i := 0 to |sources|
      invariant cache.Valid()
      invariant cache.State() ==
        InsertAll(old(cache.State()), cache.capacity, version, sources[..i], glosses[..i], takes)
    {
      var ofThisBlock: seq<string> := [];
      for j := 0 to |slots[i]|
        invariant |ofThisBlock| == j && forall k :: 0 <= k < j ==> ofThisBlock[k] == translations[slots[i][k]]
      {
        ofThisBlock := ofThisBlock + [translations[slots[i][j]]];
      }
      assert ofThisBlock == Through(slots[i], translations);
      var key := sources[i].KeyFor(version);
      var gloss := Restore(plans[i], ofThisBlock);
      GlossAt(plans, slots, translations, i);
      cache.Insert(key, gloss, takes(key));
      InsertAllNext(old(cache.State()), cache.capacity, version, sources, glosses, takes, i);
    }
    assert sources[..|sources|] == sources && glosses[..|sources|] == glosses;
    stored := |sources|;
  }

  lemma GlossAt(plans: seq<Plan>, slots: seq<seq<nat>>, translations: seq<string>, i: nat)
    requires |slots| == |plans| && AllInRange(slots, |translations|) && i < |plans|
    ensures Glosses(plans, slots, translations)[i] == RestoreGloss(plans[i], Through(slots[i], translations))
  {
  }

  lemma InsertNone(s: Lru, capacity: nat, version: string, takes: Key -> bool)
    ensures InsertAll(s, capacity, version, [], [], takes) == s
  {
  }

  method RunEngine(u: Alphabet, engine: Engine, cache: GlossCache, sources: seq<Source>, takes: Key -> bool)
    returns (stored: nat)
    requires cache.Valid()
    modifies cache
    ensures cache.Valid()
    ensures var outcome := Outcome(u, engine, sources);
      && stored == (if outcome.Some? then |sources| else 0)
      && cache.State() == if outcome.None? then old(cache.State())
                          else InsertAll(old(cache.State()), cache.capacity, engine.version, sources, outcome.value, takes)
  {
    hide PlanFor, Segments, Glosses, InsertAll, Firsts, IndexIn, Flat;
    var plans: seq<Plan> := [];
    var lists: seq<seq<string>> := [];
    for i := 0 to |sources|
      invariant cache.Valid() && cache.State() == old(cache.State())
      invariant |plans| == |lists| == i
      invariant forall k :: 0 <= k < i ==> plans[k] == PlanFor(u, sources[k].raw, sources[k].rules)
      invariant forall k :: 0 <= k < i ==> lists[k] == Segments(plans[k])
    {
      var plan := NewPlan(u, sources[i].raw, sources[i].rules);
      plans := plans + [plan];
      lists := lists + [Segments(plan)];
    }
    assert plans == PlansOf(u, sources) && lists == Asks(plans);
    SlotsInRange(lists);
    var batch := Of(lists);
    if batch.segments == [] {
      stored := Store(cache, engine.version, sources, plans, batch.slots, [], takes);
      return;
    }
    var reply := engine.translate(batch.segments);
    if reply.None? || |reply.value| != |batch.segments| {
      return 0;
    }
    stored := Store(cache, engine.version, sources, plans, batch.slots, reply.value, takes);
  }

  /** The engine is taken once, and used for what to leave out, what to ask and what to store under. */
  method RunBatch(u: Alphabet, engine: Engine, cache: GlossCache, pending: map<string, seq<Source>>, takes: Key -> bool)
    returns (stored: nat, ghost all: seq<Source>, ghost todo: seq<Source>)
    requires cache.Valid()
    modifies cache
    ensures cache.Valid()
    ensures Listed(pending, all) && Uncached(old(cache.State()), engine.version, all, todo)
    ensures var outcome := Outcome(u, engine, todo);
      && stored == (if outcome.Some? then |todo| else 0)
      && cache.State() == if outcome.None? then old(cache.State())
                          else InsertAll(old(cache.State()), cache.capacity, engine.version, todo, outcome.value, takes)
  {
    hide Listed, Uncached, InsertAll, Outcome;
    var sources := UncachedSources(cache, engine.version, pending);
    all :| Listed(pending, all) && Uncached(cache.State(), engine.version, all, sources);
    todo := sources;
    if sources == [] {
      NothingToDo(u, engine, cache.State(), cache.capacity, takes);
      return 0, all, todo;
    }
    stored := RunEngine(u, engine, cache, sources, takes);
  }

  lemma NothingToDo(u: Alphabet, engine: Engine, s: Lru, capacity: nat, takes: Key -> bool)
    ensures Outcome(u, engine, []).Some? ==> InsertAll(s, capacity, engine.version, [], Outcome(u, engine, []).value, takes) == s
  {
  }

  // ----- what the batch means

  /** The engine translates each segment as `f` does, whenever it answers for all of them. */
  ghost predicate Pointwise(engine: Engine, f: string -> string) {
    forall segments :: RepliesAs(f, segments, engine.translate(segments))
  }

  function Each(f: string -> string, list: seq<string>): (r: seq<string>)
    ensures |r| == |list| && forall i :: 0 <= i < |r| ==> r[i] == f(list[i])
  {
    seq(|list|, i requires 0 <= i < |list| => f(list[i]))
  }

  /** The gloss of one comment on its own, by an engine that translates each segment as `f` does. */
  ghost function GlossBy(u: Alphabet, f: string -> string, source: Source): string {
    var plan := PlanFor(u, source.raw, source.rules);
    RestoreGloss(plan, Each(f, Segments(plan)))
  }

  /** Asking for each segment once, and reading the answers through the slots, is asking for each
    * list on its own. */
  lemma ThroughSlots(f: string -> string, lists: seq<seq<string>>, i: nat)
    requires i < |lists|
    ensures var b := BatchOf(lists);
      && InRange(b.slots[i], |b.segments|)
      && Through(b.slots[i], Each(f, b.segments)) == Each(f, lists[i])
  {
    hide Firsts, IndexIn, Flat;
    BatchFits(lists);
    SlotsInRange(lists);
  }

  /** A reply of the right length translates each segment as `f` does. */
  ghost predicate RepliesAs(f: string -> string, segments: seq<string>, reply: Option<seq<string>>) {
    reply.Some? && |reply.value| == |segments| ==> reply.value == Each(f, segments)
  }

  function OrItself(alone: string -> Option<string>): string -> string {
    (s: string) => if alone(s).Some? then alone(s).value else s
  }

  /** An engine that answers each segment as it would alone, as `BeamSearch.Engine.Translate` does,
    * translates as one function. */
  lemma PerSegmentReplies(alone: string -> Option<string>, segments: seq<string>, reply: Option<seq<string>>)
    requires reply.Some? ==> |reply.value| == |segments|
    requires reply.Some? ==> forall i :: 0 <= i < |segments| ==> Some(reply.value[i]) == alone(segments[i])
    ensures RepliesAs(OrItself(alone), segments, reply)
  {
    if reply.Some? {
      assert forall i :: 0 <= i < |segments| ==> reply.value[i] == Each(OrItself(alone), segments)[i];
    }
  }

  /** Whatever else is in the batch, each comment gets the gloss it would get alone. */
  lemma GlossedAlone(u: Alphabet, reply: Option<seq<string>>, f: string -> string, sources: seq<Source>, i: nat)
    requires RepliesAs(f, AskedFor(u, sources).segments, reply) && i < |sources| && OutcomeOf(u, sources, reply).Some?
    ensures OutcomeOf(u, sources, reply).value[i] == GlossBy(u, f, sources[i])
  {
    hide PlanFor, Segments, RestoreGloss, Firsts, IndexIn, Flat;
    var plans := PlansOf(u, sources);
    var lists := Asks(plans);
    var b := BatchOf(lists);
    SlotsInRange(lists);
    ThroughSlots(f, lists, i);
    assert lists[i] == Segments(plans[i]);
    if b.segments == [] { assert Each(f, b.segments) == []; }
  }

  /** What comes of a reply, or of none, is what the worker is taken to be handed in an `Ask` step. */
  lemma AskedAsTheWorkerDoes(u: Alphabet, reply: Option<seq<string>>, f: string -> string, todo: seq<Source>)
    requires RepliesAs(f, AskedFor(u, todo).segments, reply)
    ensures Worker.Made((source: Source) => GlossBy(u, f, source), todo, OutcomeOf(u, todo, reply))
  {
    hide GlossBy, OutcomeOf, AskedFor, RepliesAs;
    var glosses := OutcomeOf(u, todo, reply);
    if glosses.Some? {
      forall i | 0 <= i < |todo| ensures glosses.value[i] == GlossBy(u, f, todo[i]) {
        GlossedAlone(u, reply, f, todo, i);
      }
    }
  }

  /** What is inserted under a key stays the answer for it, as long as the disk took it. */
  lemma {:induction false} InsertedStays(s: Lru, capacity: nat, version: string, sources: seq<Source>, glosses: seq<string>,
    takes: Key -> bool, i: nat)
    requires |glosses| == |sources| && i < |sources| && s.disk.Some?
    requires forall j, k :: 0 <= j < k < |sources| ==> sources[j].KeyFor(version) != sources[k].KeyFor(version)
    requires takes(sources[i].KeyFor(version))
    ensures var after := InsertAll(s, capacity, version, sources, glosses, takes);
      after.disk.Some? && Fresh(after, sources[i].KeyFor(version), Some(glosses[i]))
  {
    hide KeyOf, Source.KeyFor, Lru.Insert, Fresh;
    var k := |sources| - 1;
    var before := InsertAll(s, capacity, version, sources[..k], glosses[..k], takes);
    DiskKept(s, capacity, version, sources[..k], glosses[..k], takes);
    if i < k { InsertedStays(s, capacity, version, sources[..k], glosses[..k], takes, i); }
    var key := sources[k].KeyFor(version);
    var op := CacheTheorems.Store(key, glosses[k], takes(key));
    FreshStep(before, capacity, op, sources[i].KeyFor(version), Some(glosses[i]));
    StepKeepsDisk(before, capacity, op);
  }

  lemma {:induction false} DiskKept(s: Lru, capacity: nat, version: string, sources: seq<Source>, glosses: seq<string>, takes: Key -> bool)
    requires |glosses| == |sources|
    ensures InsertAll(s, capacity, version, sources, glosses, takes).disk.Some? == s.disk.Some?
  {
    hide KeyOf, Source.KeyFor, Lru.Insert;
    if sources != [] {
      var k := |sources| - 1;
      DiskKept(s, capacity, version, sources[..k], glosses[..k], takes);
      var key := sources[k].KeyFor(version);
      StepKeepsDisk(InsertAll(s, capacity, version, sources[..k], glosses[..k], takes), capacity,
        CacheTheorems.Store(key, glosses[k], takes(key)));
    }
  }

  /** A batch whose engine answers covers every comment waiting: it was cached, or it is looked up
    * from now on as the gloss it would get alone, whatever memory has had to give up. */
  lemma BatchCovers(u: Alphabet, engine: Engine, f: string -> string, s: Lru, capacity: nat,
    all: seq<Source>, todo: seq<Source>, takes: Key -> bool, a: Source)
    requires NulFree(engine.version) && Pointwise(engine, f)
    requires Uncached(s, engine.version, all, todo) && Outcome(u, engine, todo).Some?
    requires a in all && s.disk.Some? && takes(a.KeyFor(engine.version))
    ensures
      || s.Has(a.KeyFor(engine.version))
      || InsertAll(s, capacity, engine.version, todo, Outcome(u, engine, todo).value, takes).Answer(a.KeyFor(engine.version))
         == Some(GlossBy(u, f, a))
  {
    hide KeyOf, Source.KeyFor, Lru.Insert, OutcomeOf, AskedFor, InsertAll, GlossBy, Lru.Has;
    UncachedCovers(s, engine.version, all, todo, a);
    if !s.Has(a.KeyFor(engine.version)) {
      var i :| 0 <= i < |todo| && todo[i] == a;
      InsertedStays(s, capacity, engine.version, todo, Outcome(u, engine, todo).value, takes, i);
      GlossedAlone(u, engine.translate(AskedFor(u, todo).segments), f, todo, i);
    }
  }
}
