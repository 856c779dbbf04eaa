/** What runs of the cache keep: recency, inclusion between capacities, and the last value inserted. */
module CacheTheorems {
  import opened GlossCache
  import opened GlossKey
  import opened Lists
  import opened Wrappers

  datatype Op = Lookup(key: Key) | Ask(key: Key) | Store(key: Key, value: string, written: bool)

  function After(s: Lru, capacity: nat, op: Op): Lru {
    match op
    case Lookup(key) => s.Get(capacity, key)
    case Ask(_) => s
    case Store(key, value, written) => s.Insert(capacity, key, value, written)
  }

  function Run(s: Lru, capacity: nat, ops: seq<Op>): Lru {
    if ops == [] then s else After(Run(s, capacity, ops[..|ops| - 1]), capacity, ops[|ops| - 1])
  }

  lemma ValidTouch(s: Lru, capacity: nat, key: Key)
    requires s.Valid(capacity) && key in s.values
    ensures s.Touch(key).Valid(capacity)
  {
    var rest := Without(s.order, key);
    KeptDistinct(s.order, Elements(s.order) - {key});
    KeptElements(s.order, Elements(s.order) - {key});
    WithoutCount(s.order, key);
    hide Without;
    assert forall i :: 0 <= i < |rest| ==> rest[i] in Elements(rest);
    assert Elements(rest + [key]) == Elements(rest) + {key};
  }

  lemma ValidRemember(s: Lru, capacity: nat, key: Key, value: string)
    requires s.Valid(capacity) && capacity >= 1
    ensures s.Remember(capacity, key, value).Valid(capacity)
  {
    var after := s.Remember(capacity, key, value);
    if key in s.values {
      ValidTouch(s, capacity, key);
      assert s.values[key := value].Keys == s.values.Keys;
    } else {
      hide Without;
      assert key !in Elements(s.order);
      var rest := if |s.order| >= capacity then s.order[1..] else s.order;
      if |s.order| >= capacity { FrontGone(s.order); }
      assert Elements(rest + [key]) == Elements(rest) + {key};
    }
  }

  /** Never more keys in memory than the capacity allows, and none twice. */
  lemma {:induction false} RunValid(s: Lru, capacity: nat, ops: seq<Op>)
    requires s.Valid(capacity) && capacity >= 1
    ensures Run(s, capacity, ops).Valid(capacity)
  {
    if ops != [] {
      RunValid(s, capacity, ops[..|ops| - 1]);
      StepValid(Run(s, capacity, ops[..|ops| - 1]), capacity, ops[|ops| - 1]);
    }
  }

  lemma StepValid(s: Lru, capacity: nat, op: Op)
    requires s.Valid(capacity) && capacity >= 1
    ensures After(s, capacity, op).Valid(capacity)
  {
    hide Without, Elements;
    match op
    case Ask(_) =>
    case Store(key, value, written) =>
      var stored := if s.disk.Some? && written then s.(disk := Some(s.disk.value[key := value])) else s;
      ValidRemember(stored, capacity, key, value);
    case Lookup(key) =>
      if key in s.values { ValidTouch(s, capacity, key); }
      else if s.OnDisk(key).Some? { ValidRemember(s, capacity, key, s.OnDisk(key).value); }
  }

  // ----- what "least recently used" means

  /** The number of the last look-up or insertion that names `key`, from one; zero if none does. */
  function LastNamed(ops: seq<Op>, key: Key): (n: nat)
    ensures n <= |ops|
  {
    if ops == [] then 0
    else if !ops[|ops| - 1].Ask? && ops[|ops| - 1].key == key then |ops|
    else LastNamed(ops[..|ops| - 1], key)
  }

  ghost predicate ByUse(order: seq<Key>, ops: seq<Op>) {
    && (forall k :: k in order ==> LastNamed(ops, k) > 0)
    && (forall i, j :: 0 <= i < j < |order| ==> LastNamed(ops, order[i]) < LastNamed(ops, order[j]))
  }

  lemma {:induction false} KeptByUse(order: seq<Key>, keep: set<Key>, ops: seq<Op>)
    requires ByUse(order, ops)
    ensures ByUse(Kept(order, keep), ops)
  {
    hide LastNamed;
    if order != [] {
      var before := order[..|order| - 1];
      KeptByUse(before, keep, ops);
      forall i | 0 <= i < |Kept(before, keep)| ensures Kept(before, keep)[i] in before {
        KeptIn(before, keep, Kept(before, keep)[i]);
      }
    }
  }

  lemma ByUseNext(rest: seq<Key>, ops: seq<Op>, key: Key)
    requires ops != [] && ByUse(rest, ops[..|ops| - 1]) && key !in rest
    requires !ops[|ops| - 1].Ask? && ops[|ops| - 1].key == key
    ensures ByUse(rest + [key], ops)
  {
    assert forall k :: k in rest ==> LastNamed(ops, k) == LastNamed(ops[..|ops| - 1], k);
    assert LastNamed(ops, key) == |ops|;
  }

  lemma ByUseSame(order: seq<Key>, ops: seq<Op>)
    requires ops != [] && ByUse(order, ops[..|ops| - 1])
    requires ops[|ops| - 1].Ask? || ops[|ops| - 1].key !in order
    ensures ByUse(order, ops)
  {
    assert forall k :: k in order ==> LastNamed(ops, k) == LastNamed(ops[..|ops| - 1], k);
  }

  /** The keys in memory stand in the order of their last use; so the one evicted, the first, is
    * the least recently used. Asking whether a key is there is no use of it. */
  lemma {:induction false} RunByUse(capacity: nat, disk: Option<map<Key, string>>, ops: seq<Op>)
    requires capacity >= 1
    ensures ByUse(Run(Lru([], map[], disk), capacity, ops).order, ops)
  {
    if ops != [] {
      var before := ops[..|ops| - 1];
      RunByUse(capacity, disk, before);
      RunValid(Lru([], map[], disk), capacity, before);
      StepByUse(Run(Lru([], map[], disk), capacity, before), capacity, ops);
    }
  }

  lemma StepByUse(s: Lru, capacity: nat, ops: seq<Op>)
    requires s.Valid(capacity) && capacity >= 1 && ops != [] && ByUse(s.order, ops[..|ops| - 1])
    ensures ByUse(After(s, capacity, ops[|ops| - 1]).order, ops)
  {
    hide After, ByUse;
    var op := ops[|ops| - 1];
    var order := After(s, capacity, op).order;
    if order == s.order && (op.Ask? || op.key !in s.order) {
      ByUseSame(s.order, ops);
    } else {
      MovedOrAdded(s, capacity, op);
      RestByUse(s, capacity, op, ops[..|ops| - 1]);
      var rest := order[..|order| - 1];
      ByUseNext(rest, ops, op.key);
      assert order == rest + [op.key];
    }
  }

  /** A step that changes the order puts its key last, behind keys that were there before. */
  lemma MovedOrAdded(s: Lru, capacity: nat, op: Op)
    requires s.Valid(capacity) && capacity >= 1
    requires !(After(s, capacity, op).order == s.order && (op.Ask? || op.key !in s.order))
    ensures !op.Ask?
    ensures var order := After(s, capacity, op).order;
      && order != [] && order[|order| - 1] == op.key
      && var rest := order[..|order| - 1];
         op.key !in rest
         && (rest == s.order || rest == Without(s.order, op.key) || (s.order != [] && rest == s.order[1..]))
  {
    if !op.Ask? {
      hide Without, Kept, Distinct;
      assert op.key !in Without(s.order, op.key) by { OutOfList(s.order, op.key); }
      assert op.key in s.values <==> op.key in Elements(s.order);
    }
  }

  lemma OutOfList(l: seq<Key>, key: Key)
    ensures key !in Without(l, key)
  {
    KeptIn(l, Elements(l) - {key}, key);
  }

  lemma RestByUse(s: Lru, capacity: nat, op: Op, before: seq<Op>)
    requires s.Valid(capacity) && capacity >= 1 && ByUse(s.order, before)
    requires !(After(s, capacity, op).order == s.order && (op.Ask? || op.key !in s.order))
    ensures After(s, capacity, op).order != []
    ensures ByUse(After(s, capacity, op).order[..|After(s, capacity, op).order| - 1], before)
  {
    MovedOrAdded(s, capacity, op);
    KeptByUse(s.order, Elements(s.order) - {op.key}, before);
    hide After, LastNamed;
  }

  /** The number of the last look-up or insertion after which `key`, which it names, is in memory. */
  function LastUsed(s: Lru, capacity: nat, ops: seq<Op>, key: Key): (n: nat)
    ensures n <= |ops|
  {
    if ops == [] then 0
    else
      var k := |ops| - 1;
      if !ops[k].Ask? && ops[k].key == key && key in Run(s, capacity, ops).values then |ops|
      else LastUsed(s, capacity, ops[..k], key)
  }

  /** What a step can do to the list: nothing comes in but the key it names, and for a new key only the
    * oldest goes out, of a list that was full. */
  ghost predicate Moves(order: seq<Key>, after: seq<Key>, capacity: nat, op: Op) {
    && (|order| == capacity ==> |after| == capacity)
    && (forall o :: o in after ==> o in order || (!op.Ask? && o == op.key))
    && (forall o :: o in order && o !in after ==>
          !op.Ask? && op.key != o && |order| == capacity && o == order[0] && op.key in after)
  }

  lemma TouchMoves(order: seq<Key>, capacity: nat, op: Op)
    requires Distinct(order) && !op.Ask? && op.key in order
    ensures Moves(order, Without(order, op.key) + [op.key], capacity, op)
  {
    assert op.key in Elements(order);
    MovedCount(order, op.key);
    var rest := Without(order, op.key);
    forall o ensures o in rest <==> o in order && o != op.key { KeptIn(order, Elements(order) - {op.key}, o); }
    hide Without;
  }

  lemma NewMoves(order: seq<Key>, capacity: nat, op: Op)
    requires |order| <= capacity && 1 <= capacity && !op.Ask? && op.key !in order
    ensures Moves(order, (if |order| >= capacity then order[1..] else order) + [op.key], capacity, op)
  {
    if |order| >= capacity { assert order == [order[0]] + order[1..]; }
  }

  lemma StepMoves(s: Lru, capacity: nat, op: Op)
    requires s.Valid(capacity) && capacity >= 1
    ensures Moves(s.order, After(s, capacity, op).order, capacity, op)
  {
    hide Without, Moves;
    assert op.key in s.values <==> op.key in Elements(s.order);
    NothingMoves(s.order, capacity, op);
    if !op.Ask? && op.key in s.order { TouchMoves(s.order, capacity, op); }
    if !op.Ask? && op.key !in s.order { NewMoves(s.order, capacity, op); }
  }

  lemma NothingMoves(order: seq<Key>, capacity: nat, op: Op)
    ensures Moves(order, order, capacity, op)
  {
  }

  /** A key in memory was used when it was last named. */
  lemma {:induction false} UsedIsNamed(capacity: nat, disk: Option<map<Key, string>>, ops: seq<Op>, key: Key)
    requires capacity >= 1 && key in Run(Lru([], map[], disk), capacity, ops).order
    ensures LastUsed(Lru([], map[], disk), capacity, ops, key) == LastNamed(ops, key) > 0
  {
    var none := Lru([], map[], disk);
    RunValid(none, capacity, ops);
    assert key in Elements(Run(none, capacity, ops).order);
    if ops != [] && (ops[|ops| - 1].Ask? || ops[|ops| - 1].key != key) {
      var before := ops[..|ops| - 1];
      RunValid(none, capacity, before);
      StepMoves(Run(none, capacity, before), capacity, ops[|ops| - 1]);
      hide After;
      UsedIsNamed(capacity, disk, before, key);
    }
  }

  /** A key in memory was used when it was last named; one that has been in memory and is no longer was
    * used before all that are, and these are as many as fit: memory is the most recently used keys. */
  lemma {:induction false} MemoryIsMostRecent(capacity: nat, disk: Option<map<Key, string>>, ops: seq<Op>, key: Key)
    requires capacity >= 1
    ensures var none := Lru([], map[], disk);
      var order, used := Run(none, capacity, ops).order, LastUsed(none, capacity, ops, key);
      && (key in order ==> used == LastNamed(ops, key) > 0)
      && (used > 0 && key !in order ==>
            |order| == capacity && forall o :: o in order ==> used < LastUsed(none, capacity, ops, o))
  {
    var none := Lru([], map[], disk);
    var order := Run(none, capacity, ops).order;
    if key in order { UsedIsNamed(capacity, disk, ops, key); }
    if ops != [] && key !in order && LastUsed(none, capacity, ops, key) > 0 {
      MemoryIsMostRecent(capacity, disk, ops[..|ops| - 1], key);
      OutStep(capacity, disk, ops, key);
    }
  }

  lemma OutStep(capacity: nat, disk: Option<map<Key, string>>, ops: seq<Op>, key: Key)
    requires capacity >= 1 && ops != []
    requires var none := Lru([], map[], disk);
      && key !in Run(none, capacity, ops).order && LastUsed(none, capacity, ops, key) > 0
    requires var none, before := Lru([], map[], disk), ops[..|ops| - 1];
      var order, used := Run(none, capacity, before).order, LastUsed(none, capacity, before, key);
      used > 0 && key !in order ==> |order| == capacity && forall o :: o in order ==> used < LastUsed(none, capacity, before, o)
    ensures var none := Lru([], map[], disk);
      var order := Run(none, capacity, ops).order;
      && |order| == capacity
      && forall o :: o in order ==> LastUsed(none, capacity, ops, key) < LastUsed(none, capacity, ops, o)
  {
    var none, before, op := Lru([], map[], disk), ops[..|ops| - 1], ops[|ops| - 1];
    var s, order := Run(none, capacity, before), Run(none, capacity, ops).order;
    RunValid(none, capacity, before);
    RunValid(none, capacity, ops);
    StepMoves(s, capacity, op);
    assert order == After(s, capacity, op).order;
    assert Elements(order) == Run(none, capacity, ops).values.Keys;
    RunByUse(capacity, disk, before);
    if key in s.order { UsedIsNamed(capacity, disk, before, key); }
    hide After, Run, LastNamed;
    forall o | o in order ensures LastUsed(none, capacity, before, key) < LastUsed(none, capacity, ops, o) {
      assert o in Elements(order);
      if !(!op.Ask? && op.key == o) { UsedIsNamed(capacity, disk, before, o); }
    }
  }

  // ----- a larger cache

  /** The smaller cache holds some of the larger one's keys, in their order, and all of them until it is full. */
  ghost predicate Inside(small: Lru, large: Lru, capacity: nat) {
    && small.disk == large.disk
    && small.order == Kept(large.order, small.values.Keys)
    && (|small.order| < capacity ==> small.order == large.order)
  }

  lemma {:induction false} KeptKept(l: seq<Key>, a: set<Key>, b: set<Key>)
    ensures Kept(Kept(l, a), b) == Kept(l, a * b)
  {
    if l != [] {
      KeptKept(l[..|l| - 1], a, b);
      var k, before := l[|l| - 1], Kept(l[..|l| - 1], a);
      if k in a {
        assert Kept(l, a) == before + [k];
        KeptAppend(before, [k], b);
        KeptOne(k, b);
      } else {
        assert Kept(l, a) == before;
      }
    }
  }

  lemma {:induction false} KeptAppend(a: seq<Key>, b: seq<Key>, keep: set<Key>)
    ensures Kept(a + b, keep) == Kept(a, keep) + Kept(b, keep)
  {
    if b == [] {
      assert a + b == a;
    } else {
      KeptAppend(a, b[..|b| - 1], keep);
      assert (a + b)[..|a + b| - 1] == a + b[..|b| - 1];
    }
  }

  lemma KeptOne(k: Key, keep: set<Key>)
    ensures Kept([k], keep) == if k in keep then [k] else []
  {
    assert [k][..0] == [];
  }

  /** Moving one key to the end of both lists. */
  lemma KeptMoved(l: seq<Key>, small: set<Key>, key: Key)
    ensures Kept(Without(l, key) + [key], small + {key}) == Without(Kept(l, small), key) + [key]
    ensures key !in small ==> Kept(Without(l, key) + [key], small) == Kept(l, small)
  {
    var s, rest := Kept(l, small), Without(l, key);
    KeptElements(l, small);
    KeptAppend(rest, [key], small + {key});
    KeptAppend(rest, [key], small);
    KeptOne(key, small + {key});
    KeptOne(key, small);
    KeptKept(l, Elements(l) - {key}, small + {key});
    KeptKept(l, Elements(l) - {key}, small);
    KeptKept(l, small, Elements(s) - {key});
    KeptSame(l, (Elements(l) - {key}) * (small + {key}), small * (Elements(s) - {key}));
    if key !in small { KeptSame(l, (Elements(l) - {key}) * small, small); }
  }

  /** Taking the oldest key off the larger list takes nothing off the smaller but its oldest. */
  lemma KeptFront(l: seq<Key>, small: set<Key>)
    requires l != []
    ensures Kept(l, small) == (if l[0] in small then [l[0]] else []) + Kept(l[1..], small)
  {
    assert l == [l[0]] + l[1..];
    KeptAppend([l[0]], l[1..], small);
    KeptOne(l[0], small);
  }

  lemma MovedCount(l: seq<Key>, key: Key)
    requires Distinct(l) && key in Elements(l)
    ensures |Without(l, key) + [key]| == |l|
  {
    KeptDistinct(l, Elements(l) - {key});
    KeptElements(l, Elements(l) - {key});
    CountOf(Without(l, key));
    CountOf(l);
    assert Elements(l) == Elements(Without(l, key)) + {key};
  }

  lemma InsideSubset(small: Lru, large: Lru, c: nat, key: Key)
    requires Inside(small, large, c) && Elements(small.order) == small.values.Keys && Elements(large.order) == large.values.Keys
    ensures key in small.values ==> key in large.values
    ensures |small.order| < c ==> (key in small.values <==> key in large.values)
  {
    KeptElements(large.order, small.values.Keys);
    assert key in Elements(small.order) <==> key in small.values;
  }

  /** A look-up of a key the larger cache holds. */
  lemma InsideTouch(small: Lru, large: Lru, c: nat, key: Key)
    requires Inside(small, large, c) && small.Valid(c) && key in large.values
    requires key in small.values || |small.order| >= c
    ensures Inside(if key in small.values then small.Touch(key) else small, large.Touch(key), c)
  {
    hide Without, Kept, Elements, Distinct;
    KeptMoved(large.order, small.values.Keys, key);
    if key in small.values {
      MovedCount(small.order, key);
      assert small.values.Keys + {key} == small.values.Keys;
    }
  }

  lemma Appended(l: seq<Key>, key: Key, keep: set<Key>)
    requires key !in l
    ensures Kept(l + [key], keep + {key}) == Kept(l, keep) + [key]
  {
    KeptAppend(l, [key], keep + {key});
    KeptOne(key, keep + {key});
    KeptSame(l, keep + {key}, keep);
  }

  /** Without its oldest key the smaller list is inside the larger one, with or without that one's oldest. */
  lemma OldestGone(l: seq<Key>, keys: set<Key>)
    requires l != [] && Distinct(l) && keys <= Elements(l) && keys != {}
    ensures var s := Kept(l, keys);
      && s != []
      && Kept(l, keys - {s[0]}) == s[1..]
      && Kept(l[1..], keys - {s[0]}) == s[1..]
  {
    var s := Kept(l, keys);
    KeptElements(l, keys);
    assert Elements(s) == keys;
    var some :| some in keys;
    assert some in Elements(s);
    var less := keys - {s[0]};
    KeptDistinct(l, keys);
    FrontGone(s);
    KeptKept(l, keys, less);
    assert keys * less == less;
    KeptFront(s, less);
    KeptAll(s[1..], less);
    KeptFront(l, keys);
    KeptFront(l, less);
  }

  /** A key neither cache holds comes into both. */
  lemma InsideNew(small: Lru, large: Lru, c: nat, d: nat, key: Key, v: string, w: string)
    requires Inside(small, large, c) && small.Valid(c) && large.Valid(d) && 1 <= c <= d
    requires key !in small.values && key !in large.values
    ensures Inside(small.Remember(c, key, v), large.Remember(d, key, w), c)
  {
    hide Without, Distinct, Elements, Kept;
    assert key !in Elements(large.order) && key !in Elements(small.order);
    if |small.order| < c {
      NewBelow(small.order, small.values.Keys, key);
      assert small.values[key := v].Keys == small.values.Keys + {key};
    } else {
      NewAbove(small.order, large.order, small.values.Keys, d, key);
      var oldest := small.order[0];
      assert (small.values - {oldest})[key := v].Keys == small.values.Keys - {oldest} + {key};
    }
  }

  lemma NewBelow(order: seq<Key>, keys: set<Key>, key: Key)
    requires Elements(order) == keys
    ensures Kept(order + [key], keys + {key}) == order + [key]
  {
    hide Kept;
    assert Elements(order + [key]) == keys + {key};
    KeptAll(order + [key], keys + {key});
  }

  lemma NewAbove(small: seq<Key>, large: seq<Key>, keys: set<Key>, d: nat, key: Key)
    requires small != [] && Distinct(large) && small == Kept(large, keys) && Elements(small) == keys && key !in Elements(large)
    ensures large != []
    ensures var rest := if |large| >= d then large[1..] else large;
      Kept(rest + [key], keys - {small[0]} + {key}) == small[1..] + [key]
  {
    assert small[0] in keys;
    KeptElements(large, keys);
    hide Kept;
    OldestGone(large, keys);
    var rest := if |large| >= d then large[1..] else large;
    assert forall i :: 0 <= i < |large| ==> large[i] in Elements(large);
    Appended(rest, key, keys - {small[0]});
  }

  lemma InsideStep(small: Lru, large: Lru, c: nat, d: nat, op: Op)
    requires Inside(small, large, c) && small.Valid(c) && large.Valid(d) && 1 <= c <= d
    ensures Inside(After(small, c, op), After(large, d, op), c)
  {
    hide Without, Kept, Distinct, Elements;
    match op
    case Ask(_) =>
    case Lookup(key) =>
      InsideSubset(small, large, c, key);
      if key in large.values { InsideTouch(small, large, c, key); }
      if key in large.values && key !in small.values && small.OnDisk(key).Some? {
        InsidePromote(small, large, c, d, key, small.OnDisk(key).value, large.values[key]);
      }
      if key !in large.values && small.OnDisk(key).Some? {
        InsideNew(small, large, c, d, key, small.OnDisk(key).value, small.OnDisk(key).value);
      }
    case Store(key, value, written) =>
      var small', large' := Stored(small, key, value, written), Stored(large, key, value, written);
      assert Inside(small', large', c) && small'.Valid(c) && large'.Valid(d);
      InsideSubset(small', large', c, key);
      if key in small.values {
        InsideTouch(small', large', c, key);
        assert small.values[key := value].Keys == small.values.Keys;
      } else if key in large.values {
        InsidePromote(small', large', c, d, key, value, value);
      } else {
        InsideNew(small', large', c, d, key, value, value);
      }
  }

  function Stored(s: Lru, key: Key, value: string, written: bool): Lru {
    if s.disk.Some? && written then s.(disk := Some(s.disk.value[key := value])) else s
  }

  /** A key only the larger cache held comes into the smaller. */
  lemma InsidePromote(small: Lru, large: Lru, c: nat, d: nat, key: Key, v: string, w: string)
    requires Inside(small, large, c) && small.Valid(c) && large.Valid(d) && 1 <= c <= d
    requires key !in small.values && key in large.values
    ensures Inside(small.Remember(c, key, v), large.Remember(d, key, w), c)
    ensures Inside(small.Remember(c, key, v), large.Touch(key), c)
  {
    hide Distinct, Elements, Kept, Without;
    InsideSubset(small, large, c, key);
    assert key in Elements(large.order);
    PromoteAbove(small.order, large.order, small.values.Keys, key);
    var oldest := small.order[0];
    assert (small.values - {oldest})[key := v].Keys == small.values.Keys - {oldest} + {key};
  }

  lemma PromoteAbove(small: seq<Key>, large: seq<Key>, keys: set<Key>, key: Key)
    requires small != [] && Distinct(large) && small == Kept(large, keys) && Elements(small) == keys
    requires key in Elements(large) && key !in keys
    ensures Kept(Without(large, key) + [key], keys - {small[0]} + {key}) == small[1..] + [key]
  {
    assert small[0] in keys;
    KeptElements(large, keys);
    OldestGone(large, keys);
    var less := keys - {small[0]};
    hide Kept;
    KeptMoved(large, less, key);
    KeptElements(large, less);
    hide Without;
    assert key !in small[1..];
    NothingWithout(small[1..], key);
  }

  /** Of two caches that are asked the same things, the larger has whatever the smaller has. */
  lemma {:induction false} LargerHits(c: nat, d: nat, disk: Option<map<Key, string>>, ops: seq<Op>, key: Key)
    requires 1 <= c <= d
    ensures var small, large := Run(Lru([], map[], disk), c, ops), Run(Lru([], map[], disk), d, ops);
      && Inside(small, large, c)
      && (key in small.values ==> key in large.values)
      && (small.Answer(key).Some? ==> large.Answer(key).Some?)
      && (small.Has(key) ==> large.Has(key))
  {
    hide Kept;
    var s := Lru([], map[], disk);
    RunValid(s, c, ops);
    RunValid(s, d, ops);
    if ops != [] {
      var before := ops[..|ops| - 1];
      LargerHits(c, d, disk, before, key);
      RunValid(s, c, before);
      RunValid(s, d, before);
      hide After, Inside;
      InsideStep(Run(s, c, before), Run(s, d, before), c, d, ops[|ops| - 1]);
    } else {
      KeptAll([], {});
    }
    hide After;
    InsideSubset(Run(s, c, ops), Run(s, d, ops), c, key);
  }

  // ----- the last value inserted

  /** The value last inserted under `key`, or what was on disk to begin with. */
  function Latest(ops: seq<Op>, key: Key, disk: Option<map<Key, string>>): Option<string> {
    if ops == [] then (if disk.Some? && key in disk.value then Some(disk.value[key]) else None)
    else
      var op := ops[|ops| - 1];
      if op.Store? && op.key == key then Some(op.value) else Latest(ops[..|ops| - 1], key, disk)
  }

  /** The disk took the last write of `key`, if there was one. */
  predicate LastWritten(ops: seq<Op>, key: Key) {
    ops == []
    || var op := ops[|ops| - 1]; if op.Store? && op.key == key then op.written else LastWritten(ops[..|ops| - 1], key)
  }

  /** What is held of `key` in either half is `latest`. */
  ghost predicate Fresh(s: Lru, key: Key, latest: Option<string>) {
    && (s.disk.Some? ==> s.OnDisk(key) == latest)
    && (key in s.values ==> Some(s.values[key]) == latest)
  }

  lemma FreshStep(s: Lru, capacity: nat, op: Op, key: Key, latest: Option<string>)
    requires op.Store? && op.key == key ==> (op.written || s.disk.None?) && latest == Some(op.value)
    requires !(op.Store? && op.key == key) ==> Fresh(s, key, latest)
    ensures Fresh(After(s, capacity, op), key, latest)
  {
    hide Without;
  }

  /** Whatever has been evicted, `get` answers the value last inserted, where the disk took it; with
    * no disk it answers that value or nothing. */
  lemma {:induction false} FreshWhereWritten(capacity: nat, disk: Option<map<Key, string>>, ops: seq<Op>, key: Key)
    requires disk.None? || LastWritten(ops, key)
    ensures var s, latest := Run(Lru([], map[], disk), capacity, ops), Latest(ops, key, disk);
      && Fresh(s, key, latest)
      && s.disk.Some? == disk.Some?
      && (s.Answer(key) == latest || (disk.None? && s.Answer(key) == None))
  {
    if ops != [] {
      var before, op := ops[..|ops| - 1], ops[|ops| - 1];
      DiskStays(capacity, disk, before);
      if !(op.Store? && op.key == key) { FreshWhereWritten(capacity, disk, before, key); }
      hide After;
      StepKeepsDisk(Run(Lru([], map[], disk), capacity, before), capacity, op);
      FreshStep(Run(Lru([], map[], disk), capacity, before), capacity, op, key, Latest(ops, key, disk));
    }
  }

  lemma StepKeepsDisk(s: Lru, capacity: nat, op: Op)
    ensures After(s, capacity, op).disk.Some? == s.disk.Some?
  {
    hide Without;
  }

  lemma {:induction false} DiskStays(capacity: nat, disk: Option<map<Key, string>>, ops: seq<Op>)
    ensures Run(Lru([], map[], disk), capacity, ops).disk.Some? == disk.Some?
  {
    hide After;
    if ops != [] {
      DiskStays(capacity, disk, ops[..|ops| - 1]);
      StepKeepsDisk(Run(Lru([], map[], disk), capacity, ops[..|ops| - 1]), capacity, ops[|ops| - 1]);
    }
  }

  /** The value the disk took last under `key`, or held to begin with. */
  function Taken(ops: seq<Op>, key: Key, disk: Option<map<Key, string>>): Option<string> {
    if disk.None? then None
    else if ops == [] then (if key in disk.value then Some(disk.value[key]) else None)
    else
      var op := ops[|ops| - 1];
      if op.Store? && op.key == key && op.written then Some(op.value) else Taken(ops[..|ops| - 1], key, disk)
  }

  /** `key` has been inserted, and has not left memory since. */
  predicate Stayed(s: Lru, capacity: nat, ops: seq<Op>, key: Key) {
    ops != []
    && var op := ops[|ops| - 1];
       (op.Store? && op.key == key) || (Stayed(s, capacity, ops[..|ops| - 1], key) && key in Run(s, capacity, ops).values)
  }

  /** The disk holds what it took; memory holds the last value if the key has stayed there, and what came
    * back from the disk if it has not. */
  ghost predicate Accounts(s: Lru, key: Key, taken: Option<string>, latest: Option<string>, stayed: bool) {
    && s.OnDisk(key) == taken
    && (stayed ==> key in s.values)
    && (key in s.values ==> Some(s.values[key]) == if stayed then latest else taken)
  }

  lemma StepAccounts(s: Lru, capacity: nat, op: Op, key: Key, taken: Option<string>, latest: Option<string>, stayed: bool)
    requires capacity >= 1 && Accounts(s, key, taken, latest, stayed)
    ensures var after, mine := After(s, capacity, op), op.Store? && op.key == key;
      Accounts(after, key, if mine && op.written && s.disk.Some? then Some(op.value) else taken,
        if mine then Some(op.value) else latest, mine || (stayed && key in after.values))
  {
    hide Without;
  }

  lemma {:induction false} RunAccounts(capacity: nat, disk: Option<map<Key, string>>, ops: seq<Op>, key: Key)
    requires capacity >= 1
    ensures var none := Lru([], map[], disk);
      Accounts(Run(none, capacity, ops), key, Taken(ops, key, disk), Latest(ops, key, disk), Stayed(none, capacity, ops, key))
  {
    if ops != [] {
      var before := ops[..|ops| - 1];
      RunAccounts(capacity, disk, before, key);
      DiskStays(capacity, disk, before);
      hide After, Accounts;
      StepAccounts(Run(Lru([], map[], disk), capacity, before), capacity, ops[|ops| - 1], key,
        Taken(before, key, disk), Latest(before, key, disk), Stayed(Lru([], map[], disk), capacity, before, key));
    }
  }

  /** `get` answers the value last inserted exactly when the key has stayed in memory since, or the value
    * the disk took last is that value - as it is, above all, when the disk took the last write. */
  lemma AnswersLatest(capacity: nat, disk: Option<map<Key, string>>, ops: seq<Op>, key: Key)
    requires capacity >= 1
    ensures var none := Lru([], map[], disk);
      Run(none, capacity, ops).Answer(key) == Latest(ops, key, disk) <==>
        Stayed(none, capacity, ops, key) || Taken(ops, key, disk) == Latest(ops, key, disk)
    ensures disk.Some? && LastWritten(ops, key) ==> Taken(ops, key, disk) == Latest(ops, key, disk)
  {
    RunAccounts(capacity, disk, ops, key);
    if disk.Some? && LastWritten(ops, key) { WrittenIsTaken(ops, key, disk); }
    hide Run, Taken, Latest, Stayed;
  }

  lemma {:induction false} WrittenIsTaken(ops: seq<Op>, key: Key, disk: Option<map<Key, string>>)
    requires disk.Some? && LastWritten(ops, key)
    ensures Taken(ops, key, disk) == Latest(ops, key, disk)
  {
    if ops != [] && !(ops[|ops| - 1].Store? && ops[|ops| - 1].key == key) {
      WrittenIsTaken(ops[..|ops| - 1], key, disk);
    }
  }

  /** A refused write is not made up for: once the key has left memory, the older value answers. */
  lemma RefusedWriteGoesStale(a: Key, b: Key)
    requires a != b
    ensures var ops := [Store(a, "old", true), Store(a, "new", false), Store(b, "", true)];
      Run(Lru([], map[], Some(map[])), 1, ops).Answer(a) == Some("old") && Latest(ops, a, Some(map[])) == Some("new")
  {
    hide Without;
    var ops := [Store(a, "old", true), Store(a, "new", false), Store(b, "", true)];
    var none := Lru([], map[], Some(map[]));
    var one, two := Lru([a], map[a := "old"], Some(map[a := "old"])), Lru([a], map[a := "new"], Some(map[a := "old"]));
    assert ops[..2][..1] == ops[..1] && ops[..1][..0] == [];
    assert After(none, 1, ops[0]) == one by {
      assert map[][a := "old"] == map[a := "old"];
    }
    assert After(one, 1, ops[1]) == two by {
      NothingWithout([a], a);
      assert Without([a], a) == [];
      assert map[a := "old"][a := "new"] == map[a := "new"];
    }
    assert Run(none, 1, ops[..1]) == one && Run(none, 1, ops[..2]) == two;
    assert Run(none, 1, ops) == After(two, 1, ops[2]);
    assert Latest(ops[..2], a, none.disk) == Some("new");
  }
}
