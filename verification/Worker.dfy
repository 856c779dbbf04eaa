/** The translation worker beside its readers, as steps: handlers queue jobs and look glosses up, the
  * engine is replaced at any time, and one worker collects, checks, asks and stores. */
module Worker {
  import opened GlossKey
  import opened Jobs
  import opened Wrappers

  /** The gloss the engine of each version makes of a comment. */
  type World = string -> (Source -> string)

  datatype Phase =
    | Waiting
    | Collecting(pending: map<string, seq<Source>>)
    | Captured(version: string, pending: map<string, seq<Source>>)
    | Checking(version: string, pending: map<string, seq<Source>>, rest: seq<Source>, todo: seq<Source>, cached: set<Key>)
    | Storing(version: string, pending: map<string, seq<Source>>, todo: seq<Source>, cached: set<Key>,
              glosses: seq<string>, next: nat, onDisk: bool)

  /** A look-up under way: the version it read off the slot, and what it has read off the disk. */
  datatype Reader = Reader(version: string, source: Source, found: Option<string>)

  datatype Answer = Answer(version: string, source: Source, gloss: string)

  /** `jobs` are all jobs ever queued: those before `from` belong to earlier batches, those up to
    * `taken` to the one under way, and the others wait in the queue. */
  datatype State = State(
    slot: string,
    jobs: seq<Job>, from: nat, taken: nat,
    phase: Phase,
    memory: map<Key, string>, disk: map<Key, string>,
    readers: seq<Reader>, answers: seq<Answer>)
  {
    predicate Cached(key: Key) { key in memory || key in disk }

    function WithoutReader(i: nat): State
      requires i < |readers|
    {
      this.(readers := readers[..i] + readers[i + 1..])
    }

    function Answered(i: nat, gloss: string): State
      requires i < |readers|
    {
      WithoutReader(i).(answers := answers + [Answer(readers[i].version, readers[i].source, gloss)])
    }
  }

  datatype Step =
    | Enqueue(job: Job)
    | Swap(version: string)
    | Take
    | Collect
    | Capture
    | List(all: seq<Source>)
    | Check
    | Ask(glosses: Option<seq<string>>)
    | WriteDisk(accepted: bool)
    | WriteMemory
    | Finish
    | Evict(key: Key)
    | Begin(source: Source)
    | Hit(reader: nat)
    | ReadDisk(reader: nat)
    | Promote(reader: nat)
    | Miss(reader: nat)

  /** What an engine makes of `todo` is nothing, or the glosses that it makes of each comment alone. */
  ghost predicate Made(gloss: Source -> string, todo: seq<Source>, glosses: Option<seq<string>>) {
    glosses.Some? ==> |glosses.value| == |todo| && forall i :: 0 <= i < |todo| ==> glosses.value[i] == gloss(todo[i])
  }

  /** The version of an engine holds no NUL. */
  ghost predicate Enabled(world: World, s: State, step: Step) {
    match step
    case Enqueue(job) => job.sources != []
    case Swap(version) => NulFree(version)
    case Take => s.phase.Waiting? && s.taken < |s.jobs|
    case Collect => s.phase.Collecting? && s.taken < |s.jobs|
    case Capture => s.phase.Collecting?
    case List(all) => s.phase.Captured? && Listed(s.phase.pending, all)
    case Check => s.phase.Checking? && s.phase.rest != []
    case Ask(glosses) => s.phase.Checking? && s.phase.rest == [] && Made(world(s.phase.version), s.phase.todo, glosses)
    case WriteDisk(_) => s.phase.Storing? && s.phase.next < |s.phase.todo| && !s.phase.onDisk
    case WriteMemory => s.phase.Storing? && s.phase.next < |s.phase.todo| && s.phase.onDisk
    case Finish => s.phase.Storing? && s.phase.next == |s.phase.todo|
    case Evict(key) => key in s.memory
    case Begin(_) => true
    case Hit(i) => i < |s.readers| && s.readers[i].found.None? && KeyRead(s, i) in s.memory
    case ReadDisk(i) => i < |s.readers| && s.readers[i].found.None? && KeyRead(s, i) in s.disk
    case Promote(i) => i < |s.readers| && s.readers[i].found.Some?
    case Miss(i) => i < |s.readers| && s.readers[i].found.None? && KeyRead(s, i) !in s.disk
  }

  function KeyRead(s: State, i: nat): Key
    requires i < |s.readers|
  {
    s.readers[i].source.KeyFor(s.readers[i].version)
  }

  ghost function Next(world: World, s: State, step: Step): State
    requires Enabled(world, s, step)
    requires Wellformed(s)
  {
    match step
    case Enqueue(job) => s.(jobs := s.jobs + [job])
    case Swap(version) => s.(slot := version)
    case Take =>
      var job := s.jobs[s.taken];
      s.(from := s.taken, taken := s.taken + 1, phase := Collecting(map[job.uri := job.sources]))
    case Collect =>
      var job := s.jobs[s.taken];
      s.(taken := s.taken + 1, phase := Collecting(s.phase.pending[job.uri := job.sources]))
    case Capture => s.(phase := Captured(s.slot, s.phase.pending))
    case List(all) => s.(phase := Checking(s.phase.version, s.phase.pending, all, [], {}))
    case Check => s.(phase := Checked(s, s.phase))
    case Ask(glosses) =>
      var p := s.phase;
      s.(phase := if glosses.None? then Waiting
                  else Storing(p.version, p.pending, p.todo, p.cached, glosses.value, 0, false))
    case WriteDisk(accepted) =>
      var p := s.phase;
      s.(phase := p.(onDisk := true),
         disk := if accepted then s.disk[p.todo[p.next].KeyFor(p.version) := p.glosses[p.next]] else s.disk)
    case WriteMemory =>
      var p := s.phase;
      s.(phase := p.(next := p.next + 1, onDisk := false),
         memory := s.memory[p.todo[p.next].KeyFor(p.version) := p.glosses[p.next]])
    case Finish => s.(phase := Waiting)
    case Evict(key) => s.(memory := s.memory - {key})
    case Begin(source) => s.(readers := s.readers + [Reader(s.slot, source, None)])
    case Hit(i) => s.Answered(i, s.memory[KeyRead(s, i)])
    case ReadDisk(i) => s.(readers := s.readers[i := s.readers[i].(found := Some(s.disk[KeyRead(s, i)]))])
    case Promote(i) =>
      var gloss := s.readers[i].found.value;
      s.Answered(i, gloss).(memory := s.memory[KeyRead(s, i) := gloss])
    case Miss(i) => s.WithoutReader(i)
  }

  /** One comment of the list checked: left out if it is cached or its key has been seen. */
  ghost function Checked(s: State, p: Phase): Phase
    requires p.Checking? && p.rest != []
  {
    var source := p.rest[0];
    var key := source.KeyFor(p.version);
    if s.Cached(key) then p.(rest := p.rest[1..], cached := p.cached + {key})
    else if exists t :: t in p.todo && t.KeyFor(p.version) == key then p.(rest := p.rest[1..])
    else p.(rest := p.rest[1..], todo := p.todo + [source])
  }

  ghost predicate Wellformed(s: State) {
    && s.from <= s.taken <= |s.jobs|
    && (s.phase.Storing? ==> |s.phase.glosses| == |s.phase.todo| && s.phase.next <= |s.phase.todo|)
  }

  // ----- what every step keeps

  /** What is kept under the key of a comment and a version is the gloss that version's engine makes of it. */
  ghost predicate Coherent(world: World, glosses: map<Key, string>) {
    forall version: string, source: Source :: NulFree(version) && source.KeyFor(version) in glosses ==>
      glosses[source.KeyFor(version)] == world(version)(source)
  }

  lemma CoherentWith(world: World, glosses: map<Key, string>, version: string, source: Source)
    requires Coherent(world, glosses) && NulFree(version)
    ensures Coherent(world, glosses[source.KeyFor(version) := world(version)(source)])
  {
    hide KeyOf, NulFree;
    var more := glosses[source.KeyFor(version) := world(version)(source)];
    forall v: string, c: Source | NulFree(v) && c.KeyFor(v) in more
      ensures more[c.KeyFor(v)] == world(v)(c)
    {
      KeysDiffer(v, c.raw, c.rules, version, source.raw, source.rules);
    }
  }

  lemma CoherentLess(world: World, glosses: map<Key, string>, key: Key)
    requires Coherent(world, glosses)
    ensures Coherent(world, glosses - {key})
  {
    hide KeyOf, NulFree, Source.KeyFor;
  }

  ghost predicate PhaseHolds(world: World, p: Phase) {
    && (!p.Waiting? && !p.Collecting? ==> NulFree(p.version))
    && (p.Storing? ==> |p.glosses| == |p.todo|)
    && (p.Storing? ==> forall i :: 0 <= i < |p.todo| ==> p.glosses[i] == world(p.version)(p.todo[i]))
  }

  ghost predicate ReaderHolds(world: World, r: Reader) {
    && NulFree(r.version)
    && (r.found.Some? ==> r.found.value == world(r.version)(r.source))
  }

  ghost predicate AnswerHolds(world: World, a: Answer) {
    a.gloss == world(a.version)(a.source)
  }

  ghost predicate ReadersHold(world: World, readers: seq<Reader>) {
    forall i :: 0 <= i < |readers| ==> ReaderHolds(world, readers[i])
  }

  ghost predicate AnswersHold(world: World, answers: seq<Answer>) {
    forall i :: 0 <= i < |answers| ==> AnswerHolds(world, answers[i])
  }

  ghost predicate Holds(world: World, s: State) {
    && Wellformed(s)
    && NulFree(s.slot)
    && Coherent(world, s.memory) && Coherent(world, s.disk)
    && PhaseHolds(world, s.phase)
    && ReadersHold(world, s.readers)
    && AnswersHold(world, s.answers)
  }

  /** The steps of handlers looking glosses up. */
  predicate IsReading(step: Step) {
    step.Evict? || step.Begin? || step.Hit? || step.ReadDisk? || step.Promote? || step.Miss?
  }

  lemma ReadingHolds(world: World, s: State, step: Step)
    requires Holds(world, s) && Enabled(world, s, step) && IsReading(step)
    ensures Holds(world, Next(world, s, step))
  {
    hide KeyOf, NulFree, Source.KeyFor, Coherent, PhaseHolds, ReaderHolds, AnswersHold, ReadersHold;
    match step
    case Evict(key) => CoherentLess(world, s.memory, key);
    case Begin(source) => ReaderBegins(world, s, source);
    case Hit(i) =>
      ReaderLeaves(world, s, i);
      CoherentAt(world, s.memory, s.readers[i].version, s.readers[i].source);
      AnswerGiven(world, s.answers, s.readers[i], s.memory[KeyRead(s, i)]);
    case ReadDisk(i) =>
      ReaderLeaves(world, s, i);
      CoherentAt(world, s.disk, s.readers[i].version, s.readers[i].source);
      ReaderFinds(world, s.readers, i, s.disk[KeyRead(s, i)]);
    case Promote(i) =>
      ReaderLeaves(world, s, i);
      CoherentWith(world, s.memory, s.readers[i].version, s.readers[i].source);
      AnswerGiven(world, s.answers, s.readers[i], s.readers[i].found.value);
    case Miss(i) => ReaderLeaves(world, s, i);
  }

  lemma ReaderBegins(world: World, s: State, source: Source)
    requires ReadersHold(world, s.readers) && NulFree(s.slot)
    ensures ReadersHold(world, s.readers + [Reader(s.slot, source, None)])
  {
    hide NulFree;
  }

  lemma ReaderLeaves(world: World, s: State, i: nat)
    requires ReadersHold(world, s.readers) && i < |s.readers|
    ensures ReadersHold(world, s.WithoutReader(i).readers)
    ensures NulFree(s.readers[i].version)
    ensures var r := s.readers[i]; r.found.Some? ==> r.found.value == world(r.version)(r.source)
  {
    hide NulFree;
    assert ReaderHolds(world, s.readers[i]);
  }

  lemma ReaderFinds(world: World, readers: seq<Reader>, i: nat, gloss: string)
    requires ReadersHold(world, readers) && i < |readers|
    requires gloss == world(readers[i].version)(readers[i].source)
    ensures ReadersHold(world, readers[i := readers[i].(found := Some(gloss))])
  {
    hide NulFree;
  }

  lemma AnswerGiven(world: World, answers: seq<Answer>, r: Reader, gloss: string)
    requires AnswersHold(world, answers) && gloss == world(r.version)(r.source)
    ensures AnswersHold(world, answers + [Answer(r.version, r.source, gloss)])
  {
  }

  /** A step keeps the caches coherent, whatever is swapped, stored, evicted or looked up meanwhile. */
  lemma StepHolds(world: World, s: State, step: Step)
    requires Holds(world, s) && Enabled(world, s, step)
    ensures Holds(world, Next(world, s, step))
  {
    hide KeyOf, NulFree, Source.KeyFor, Coherent, Listed, Collected, ReadersHold, AnswersHold;
    if IsReading(step) {
      ReadingHolds(world, s, step);
    } else {
      match step
      case WriteDisk(_) => CoherentWith(world, s.disk, s.phase.version, s.phase.todo[s.phase.next]);
      case WriteMemory => CoherentWith(world, s.memory, s.phase.version, s.phase.todo[s.phase.next]);
      case _ =>
    }
  }

  lemma CoherentAt(world: World, glosses: map<Key, string>, version: string, source: Source)
    requires Coherent(world, glosses) && NulFree(version) && source.KeyFor(version) in glosses
    ensures glosses[source.KeyFor(version)] == world(version)(source)
  {
  }

  // ----- what a batch owes

  /** Comment `a` is still to be checked, was found cached, or is among those to translate. */
  ghost predicate Accounted(p: Phase, a: Source)
    requires p.Checking? || p.Storing?
  {
    || (p.Checking? && a in p.rest)
    || a.KeyFor(p.version) in p.cached
    || a in p.todo
  }

  ghost predicate AllAccounted(p: Phase)
    requires p.Checking? || p.Storing?
  {
    forall uri, a :: uri in p.pending && a in p.pending[uri] ==> Accounted(p, a)
  }

  /** What is pending is what the jobs taken since the last batch come to, and all of it is accounted for. */
  ghost predicate Tracks(s: State) {
    && Wellformed(s)
    && (!s.phase.Waiting? ==> s.phase.pending == Collected(map[], s.jobs[s.from..s.taken]))
    && (!s.phase.Waiting? && !s.phase.Collecting? ==> NulFree(s.phase.version))
    && (s.phase.Checking? || s.phase.Storing? ==> AllAccounted(s.phase))
  }

  lemma CheckTracks(s: State, a: Source)
    requires s.phase.Checking? && s.phase.rest != [] && Accounted(s.phase, a) && NulFree(s.phase.version)
    ensures Accounted(Checked(s, s.phase), a)
  {
    var p := s.phase;
    var source := p.rest[0];
    if a == source {
      if !s.Cached(source.KeyFor(p.version)) && exists t :: t in p.todo && t.KeyFor(p.version) == source.KeyFor(p.version) {
        var t :| t in p.todo && t.KeyFor(p.version) == source.KeyFor(p.version);
        KeysDiffer(p.version, t.raw, t.rules, p.version, source.raw, source.rules);
      }
    } else if a in p.rest {
      assert p.rest == [source] + p.rest[1..];
    }
  }

  lemma TakenNext(s: State)
    requires Wellformed(s) && s.taken < |s.jobs|
    ensures var job := s.jobs[s.taken];
      && Collected(map[], s.jobs[s.from..s.taken + 1])
         == Collected(map[], s.jobs[s.from..s.taken])[job.uri := job.sources]
      && Collected(map[], s.jobs[s.taken..s.taken + 1]) == map[job.uri := job.sources]
  {
    assert s.jobs[s.from..s.taken + 1][..s.taken - s.from] == s.jobs[s.from..s.taken];
    assert s.jobs[s.taken..s.taken + 1][..0] == [];
  }

  lemma StepTracks(world: World, s: State, step: Step)
    requires Tracks(s) && NulFree(s.slot) && Enabled(world, s, step)
    ensures Tracks(Next(world, s, step))
  {
    hide NulFree, Listed, Collected, Checked, State.Cached, Accounted, AllAccounted;
    match step
    case Enqueue(job) => assert (s.jobs + [job])[s.from..s.taken] == s.jobs[s.from..s.taken];
    case Take => TakenNext(s);
    case Collect => TakenNext(s);
    case List(all) => ListAccounts(s, all);
    case Check =>
      CheckKeeps(s);
      CheckAccounts(s);
    case _ => SamePhase(s.phase, Next(world, s, step).phase);
  }

  lemma ListAccounts(s: State, all: seq<Source>)
    requires s.phase.Captured? && Listed(s.phase.pending, all)
    ensures AllAccounted(Checking(s.phase.version, s.phase.pending, all, [], {}))
  {
    hide KeyOf, Source.KeyFor;
  }

  lemma CheckAccounts(s: State)
    requires s.phase.Checking? && s.phase.rest != [] && AllAccounted(s.phase) && NulFree(s.phase.version)
    ensures Checked(s, s.phase).Checking? && AllAccounted(Checked(s, s.phase))
  {
    hide KeyOf, Source.KeyFor, Checked, NulFree, Accounted;
    CheckKeeps(s);
    forall uri, a | uri in s.phase.pending && a in s.phase.pending[uri] ensures Accounted(Checked(s, s.phase), a) {
      CheckTracks(s, a);
    }
  }

  /** Storing, and what readers do, leaves every comment accounted for. */
  lemma SamePhase(p: Phase, q: Phase)
    requires p.Storing? && q.Storing? ==> q == p.(next := q.next, onDisk := q.onDisk)
    requires p.Checking? && q.Storing? ==>
      p.rest == [] && q.version == p.version && q.todo == p.todo && q.cached == p.cached && q.pending == p.pending
    requires q.Checking? ==> p == q
    ensures (p.Checking? || p.Storing?) && (q.Checking? || q.Storing?) ==> AllAccounted(p) == AllAccounted(q)
  {
    hide KeyOf, Source.KeyFor;
    if (p.Checking? || p.Storing?) && (q.Checking? || q.Storing?) {
      assert forall a: Source :: Accounted(p, a) == Accounted(q, a);
    }
  }

  lemma CheckKeeps(s: State)
    requires s.phase.Checking? && s.phase.rest != []
    ensures var p := Checked(s, s.phase); p.Checking? && p.pending == s.phase.pending && p.version == s.phase.version
  {
    hide KeyOf, Source.KeyFor;
  }

  // ----- runs

  ghost predicate Start(world: World, s: State) {
    && s.jobs == [] && s.from == s.taken == 0 && s.phase.Waiting? && s.memory == map[] && s.readers == [] && s.answers == []
    && NulFree(s.slot) && Coherent(world, s.disk)
  }

  ghost predicate Run(world: World, states: seq<State>, steps: seq<Step>) {
    && |states| == |steps| + 1
    && Start(world, states[0])
    && forall i :: 0 <= i < |steps| ==>
         Wellformed(states[i]) && Enabled(world, states[i], steps[i])
         && states[i + 1] == Next(world, states[i], steps[i])
  }

  lemma StartHolds(world: World, s: State)
    requires Start(world, s)
    ensures Holds(world, s) && Tracks(s)
  {
    hide KeyOf, Source.KeyFor, NulFree;
  }

  lemma {:induction false} RunHolds(world: World, states: seq<State>, steps: seq<Step>, i: nat)
    requires Run(world, states, steps) && i < |states|
    ensures Holds(world, states[i]) && Tracks(states[i])
  {
    hide Coherent, Enabled, Next, Collected, NulFree;
    if i == 0 {
      StartHolds(world, states[0]);
    } else {
      RunHolds(world, states, steps, i - 1);
      StepHolds(world, states[i - 1], steps[i - 1]);
      StepTracks(world, states[i - 1], steps[i - 1]);
    }
  }

  // ----- when a look-up began

  /** The step at which each look-up under way began, and each that was answered. */
  datatype Begins = Begins(readers: seq<nat>, answers: seq<nat>)
  {
    function Without(i: nat): Begins {
      if i < |readers| then this.(readers := readers[..i] + readers[i + 1..]) else this
    }

    function Answered(i: nat): Begins {
      if i < |readers| then Without(i).(answers := answers + [readers[i]]) else this
    }

    function Next(step: Step, at: nat): Begins {
      match step
      case Begin(_) => this.(readers := readers + [at])
      case Hit(i) => Answered(i)
      case Promote(i) => Answered(i)
      case Miss(i) => Without(i)
      case _ => this
    }
  }

  function Begun(steps: seq<Step>, n: nat): Begins
    requires n <= |steps|
  {
    if n == 0 then Begins([], []) else Begun(steps, n - 1).Next(steps[n - 1], n - 1)
  }

  /** At step `at` this comment's look-up began, with the engine of this version in the slot. */
  ghost predicate BeganAt(states: seq<State>, steps: seq<Step>, n: nat, at: nat, version: string, source: Source)
    requires n <= |steps| && |states| == |steps| + 1
  {
    at < n && steps[at] == Begin(source) && states[at].slot == version
  }

  ghost predicate AllBegan(states: seq<State>, steps: seq<Step>, n: nat, b: Begins, readers: seq<Reader>, answers: seq<Answer>)
    requires n <= |steps| && |states| == |steps| + 1
  {
    && |b.readers| == |readers| && |b.answers| == |answers|
    && (forall i :: 0 <= i < |readers| ==> BeganAt(states, steps, n, b.readers[i], readers[i].version, readers[i].source))
    && (forall i :: 0 <= i < |answers| ==> BeganAt(states, steps, n, b.answers[i], answers[i].version, answers[i].source))
  }

  lemma {:induction false} RunBegan(world: World, states: seq<State>, steps: seq<Step>, n: nat)
    requires Run(world, states, steps) && n <= |steps|
    ensures AllBegan(states, steps, n, Begun(steps, n), states[n].readers, states[n].answers)
  {
    if n > 0 {
      RunBegan(world, states, steps, n - 1);
      hide Enabled, Next, AllBegan, Begins.Next;
      StepBegan(world, states, steps, n, Begun(steps, n - 1));
    }
  }

  lemma StepBegan(world: World, states: seq<State>, steps: seq<Step>, n: nat, b: Begins)
    requires 0 < n <= |steps| && |states| == |steps| + 1 && Wellformed(states[n - 1])
    requires Enabled(world, states[n - 1], steps[n - 1])
    requires AllBegan(states, steps, n - 1, b, states[n - 1].readers, states[n - 1].answers)
    ensures var next := Next(world, states[n - 1], steps[n - 1]);
      AllBegan(states, steps, n, b.Next(steps[n - 1], n - 1), next.readers, next.answers)
  {
    hide AllBegan, Begins.Answered, Begins.Without, State.Answered, State.WithoutReader;
    var s := states[n - 1];
    BeganStays(states, steps, n, b, s.readers, s.answers);
    match steps[n - 1]
    case Begin(source) => BeginBegan(states, steps, n, b, s.readers, s.answers, source);
    case Hit(i) => AnswerBegan(states, steps, n, b, s, i, s.memory[KeyRead(s, i)]);
    case Promote(i) => AnswerBegan(states, steps, n, b, s, i, s.readers[i].found.value);
    case Miss(i) => AnswerBegan(states, steps, n, b, s, i, "");
    case ReadDisk(i) => FindBegan(states, steps, n, b, s, i, s.disk[KeyRead(s, i)]);
    case _ =>
  }

  lemma BeganStays(states: seq<State>, steps: seq<Step>, n: nat, b: Begins, readers: seq<Reader>, answers: seq<Answer>)
    requires 0 < n <= |steps| && |states| == |steps| + 1 && AllBegan(states, steps, n - 1, b, readers, answers)
    ensures AllBegan(states, steps, n, b, readers, answers)
  {
  }

  lemma BeginBegan(states: seq<State>, steps: seq<Step>, n: nat, b: Begins, readers: seq<Reader>, answers: seq<Answer>,
    source: Source)
    requires 0 < n <= |steps| && |states| == |steps| + 1 && AllBegan(states, steps, n, b, readers, answers)
    requires steps[n - 1] == Begin(source)
    ensures AllBegan(states, steps, n, b.(readers := b.readers + [n - 1]), readers + [Reader(states[n - 1].slot, source, None)], answers)
  {
  }

  lemma FindBegan(states: seq<State>, steps: seq<Step>, n: nat, b: Begins, s: State, i: nat, gloss: string)
    requires n <= |steps| && |states| == |steps| + 1 && AllBegan(states, steps, n, b, s.readers, s.answers) && i < |s.readers|
    ensures AllBegan(states, steps, n, b, s.readers[i := s.readers[i].(found := Some(gloss))], s.answers)
  {
  }

  lemma AnswerBegan(states: seq<State>, steps: seq<Step>, n: nat, b: Begins, s: State, i: nat, gloss: string)
    requires n <= |steps| && |states| == |steps| + 1 && AllBegan(states, steps, n, b, s.readers, s.answers) && i < |s.readers|
    ensures AllBegan(states, steps, n, b.Without(i), s.WithoutReader(i).readers, s.answers)
    ensures AllBegan(states, steps, n, b.Answered(i), s.Answered(i, gloss).readers, s.Answered(i, gloss).answers)
    ensures s.WithoutReader(i).answers == s.answers
  {
  }

  /** In every interleaving: an answered look-up began at some step, and was answered with the gloss that
    * the engine in the slot at that step makes of its comment. */
  lemma AnswersAreOfTheirEngine(world: World, states: seq<State>, steps: seq<Step>, i: nat, k: nat)
    requires Run(world, states, steps) && i < |states| && k < |states[i].answers|
    ensures |Begun(steps, i).answers| == |states[i].answers|
    ensures var a, at := states[i].answers[k], Begun(steps, i).answers[k];
      && at < i && steps[at] == Begin(a.source)
      && a.version == states[at].slot
      && a.gloss == world(states[at].slot)(a.source)
  {
    hide Tracks, Enabled, Next, Begun;
    RunHolds(world, states, steps, i);
    RunBegan(world, states, steps, i);
    hide Run;
    assert AnswerHolds(world, states[i].answers[k]);
    assert BeganAt(states, steps, i, Begun(steps, i).answers[k], states[i].answers[k].version, states[i].answers[k].source);
  }

  lemma StepSlot(world: World, s: State, step: Step)
    requires Wellformed(s) && Enabled(world, s, step)
    ensures Next(world, s, step).slot == if step.Swap? then step.version else s.slot
  {
    hide Checked, Made, Listed;
  }

  /** The slot holds what was put there last. */
  lemma {:induction false} SlotSince(world: World, states: seq<State>, steps: seq<Step>, p: nat, n: nat)
    requires Run(world, states, steps) && p < n <= |steps| && steps[p].Swap?
    requires forall q :: p < q < n ==> !steps[q].Swap?
    ensures states[n].slot == steps[p].version
  {
    hide Enabled, Next;
    StepSlot(world, states[n - 1], steps[n - 1]);
    if p < n - 1 { SlotSince(world, states, steps, p, n - 1); }
  }

  /** A look-up begun after the engine was replaced, and before it is again, is answered with the new
    * engine's gloss, whatever was cached, stored or under way when it began. */
  lemma NoneAfterASwap(world: World, states: seq<State>, steps: seq<Step>, i: nat, k: nat, p: nat)
    requires Run(world, states, steps) && i < |states| && k < |states[i].answers|
    requires |Begun(steps, i).answers| == |states[i].answers|
    requires p < Begun(steps, i).answers[k] < |steps| && steps[p].Swap?
    requires forall q :: p < q < Begun(steps, i).answers[k] ==> !steps[q].Swap?
    ensures var a := states[i].answers[k]; a.gloss == world(steps[p].version)(a.source)
  {
    AnswersAreOfTheirEngine(world, states, steps, i, k);
    SlotSince(world, states, steps, p, Begun(steps, i).answers[k]);
  }

  // ----- what a batch has seen to

  predicate InBatch(p: Phase) { p.Checking? || p.Storing? }

  /** From state `m` to state `n` one batch is under way, for one engine. */
  ghost predicate SameBatch(states: seq<State>, m: nat, n: nat) {
    && m <= n < |states| && InBatch(states[n].phase)
    && forall q :: m <= q <= n ==> InBatch(states[q].phase) && states[q].phase.version == states[n].phase.version
  }

  /** The batch under way at state `n` has had `key` in one of the caches. */
  ghost predicate SeenTo(states: seq<State>, n: nat, key: Key) {
    exists m: nat :: SameBatch(states, m, n) && states[m].Cached(key)
  }

  /** It has had there all that it left out, and all that it has stored so far. */
  ghost predicate AllSeenTo(states: seq<State>, n: nat)
    requires n < |states|
  {
    var p := states[n].phase;
    && (InBatch(p) ==> forall key :: key in p.cached ==> SeenTo(states, n, key))
    && (p.Storing? ==> forall q :: 0 <= q < p.next && q < |p.todo| ==> SeenTo(states, n, p.todo[q].KeyFor(p.version)))
  }

  lemma SeenToStill(states: seq<State>, n: nat, key: Key)
    requires 0 < n < |states| && SeenTo(states, n - 1, key)
    requires InBatch(states[n].phase) && states[n].phase.version == states[n - 1].phase.version
    ensures SeenTo(states, n, key)
  {
    var m: nat :| SameBatch(states, m, n - 1) && states[m].Cached(key);
    assert SameBatch(states, m, n);
  }

  /** How a step moves a batch that is under way. */
  lemma BatchMoves(world: World, s: State, step: Step)
    requires Wellformed(s) && Enabled(world, s, step) && InBatch(Next(world, s, step).phase)
    ensures var t := Next(world, s, step);
      var p, q := s.phase, t.phase;
      if step.List? then q.Checking? && q.cached == {}
      else
        && InBatch(p) && q.version == p.version
        && (p.Storing? && q.Storing? ==> q.todo == p.todo)
        && (forall key :: key in q.cached ==> key in p.cached || s.Cached(key))
        && (q.Storing? && 0 < q.next && !(p.Storing? && q.next <= p.next) ==>
              p.Storing? && q.next == p.next + 1 && p.next < |p.todo|
              && p.todo[p.next].KeyFor(p.version) in t.memory)
  {
    hide KeyOf, Source.KeyFor, NulFree, Listed, Made;
  }

  lemma StepSeenTo(world: World, states: seq<State>, n: nat, step: Step)
    requires 0 < n < |states| && Wellformed(states[n - 1]) && Enabled(world, states[n - 1], step)
    requires states[n] == Next(world, states[n - 1], step) && AllSeenTo(states, n - 1)
    ensures AllSeenTo(states, n)
  {
    var s, t := states[n - 1], states[n];
    if InBatch(t.phase) && !step.List? {
      BatchMoves(world, s, step);
      hide Next, Enabled, Source.KeyFor, KeyOf, SeenTo;
      forall key | key in t.phase.cached ensures SeenTo(states, n, key) {
        if key in s.phase.cached {
          SeenToStill(states, n, key);
        } else {
          SeenHere(states, n - 1, key);
          SeenToStill(states, n, key);
        }
      }
      if t.phase.Storing? {
        forall q | 0 <= q < t.phase.next && q < |t.phase.todo|
          ensures SeenTo(states, n, t.phase.todo[q].KeyFor(t.phase.version))
        {
          if q < s.phase.next {
            SeenToStill(states, n, t.phase.todo[q].KeyFor(t.phase.version));
          } else {
            SeenHere(states, n, t.phase.todo[q].KeyFor(t.phase.version));
          }
        }
      }
    } else if InBatch(t.phase) {
      BatchMoves(world, s, step);
    }
  }

  lemma SeenHere(states: seq<State>, n: nat, key: Key)
    requires n < |states| && InBatch(states[n].phase) && states[n].Cached(key)
    ensures SeenTo(states, n, key)
  {
    assert SameBatch(states, n, n);
  }

  lemma StartSeenTo(world: World, states: seq<State>)
    requires states != [] && Start(world, states[0])
    ensures AllSeenTo(states, 0)
  {
    hide SeenTo, KeyOf, Source.KeyFor, Coherent, NulFree;
  }

  lemma {:induction false} RunSeenTo(world: World, states: seq<State>, steps: seq<Step>, n: nat)
    requires Run(world, states, steps) && n < |states|
    ensures AllSeenTo(states, n)
  {
    hide AllSeenTo, Enabled, Next, Start, Wellformed;
    if n == 0 {
      StartSeenTo(world, states);
    } else {
      RunSeenTo(world, states, steps, n - 1);
      StepSeenTo(world, states, n, steps[n - 1]);
    }
  }

  /** The gloss is in one of the caches under the key, and nothing else is in either. */
  ghost predicate Keeps(s: State, key: Key, gloss: string) {
    s.Cached(key) && (key in s.memory ==> s.memory[key] == gloss) && (key in s.disk ==> s.disk[key] == gloss)
  }

  /** When a batch that was answered has stored all it had to, each comment of each document's latest job
    * has been in a cache, in the course of that batch, with the gloss that the engine of the batch makes of it. */
  lemma BatchCoversLatest(world: World, states: seq<State>, steps: seq<Step>, i: nat, j: nat, a: Source)
    requires Run(world, states, steps) && i < |states|
    requires states[i].phase.Storing? && states[i].phase.next == |states[i].phase.todo|
    requires states[i].from <= j < states[i].taken <= |states[i].jobs| && a in states[i].jobs[j].sources
    requires forall k :: j < k < states[i].taken ==> states[i].jobs[k].uri != states[i].jobs[j].uri
    ensures var version := states[i].phase.version;
      exists m: nat :: SameBatch(states, m, i) && Keeps(states[m], a.KeyFor(version), world(version)(a))
  {
    hide Run, KeyOf, Source.KeyFor, Collected, NulFree;
    RunHolds(world, states, steps, i);
    RunSeenTo(world, states, steps, i);
    var s := states[i];
    var mine := s.jobs[s.from..s.taken];
    LastJobWins(map[], mine, j - s.from);
    assert Accounted(s.phase, a);
    var key := a.KeyFor(s.phase.version);
    assert SeenTo(states, i, key);
    var m: nat :| SameBatch(states, m, i) && states[m].Cached(key);
    RunHolds(world, states, steps, m);
    if key in states[m].memory { CoherentAt(world, states[m].memory, s.phase.version, a); }
    if key in states[m].disk { CoherentAt(world, states[m].disk, s.phase.version, a); }
    assert Keeps(states[m], key, world(s.phase.version)(a));
  }

  lemma StepKeepsDisk(world: World, s: State, step: Step, key: Key)
    requires Wellformed(s) && Enabled(world, s, step) && key in s.disk
    ensures key in Next(world, s, step).disk
  {
    hide Checked, Made, Listed, KeyOf, Source.KeyFor;
  }

  lemma {:induction false} DiskStays(world: World, states: seq<State>, steps: seq<Step>, m: nat, n: nat, key: Key)
    requires Run(world, states, steps) && m <= n < |states| && key in states[m].disk
    ensures key in states[n].disk
  {
    hide Enabled, Next, Start, Wellformed;
    if m < n {
      DiskStays(world, states, steps, m, n - 1, key);
      StepKeepsDisk(world, states[n - 1], steps[n - 1], key);
    }
  }

  /** A gloss whose write the disk took stays there for good, whatever is swapped, stored or evicted later. */
  lemma AcceptedStays(world: World, states: seq<State>, steps: seq<Step>, m: nat, n: nat)
    requires Run(world, states, steps) && m < n < |states| && steps[m] == WriteDisk(true)
    ensures states[m].phase.Storing? && states[m].phase.next < |states[m].phase.todo|
    ensures var p := states[m].phase;
      var a := p.todo[p.next];
      a.KeyFor(p.version) in states[n].disk && states[n].disk[a.KeyFor(p.version)] == world(p.version)(a)
  {
    var p := states[m].phase;
    assert Enabled(world, states[m], steps[m]) && states[m + 1] == Next(world, states[m], steps[m]);
    var a := p.todo[p.next];
    hide KeyOf, Source.KeyFor, Run, NulFree;
    DiskStays(world, states, steps, m + 1, n, a.KeyFor(p.version));
    RunHolds(world, states, steps, m);
    RunHolds(world, states, steps, n);
    CoherentAt(world, states[n].disk, p.version, a);
  }
}
