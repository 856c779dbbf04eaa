/** The two-level cache of finished glosses, and the recency list it is equal to. */
module GlossCache {
  import opened GlossKey
  import opened Lists
  import opened Wrappers

  // ----- recency lists

  function Elements(l: seq<Key>): set<Key> { set k | k in l }

  /** The keys of `l` that are in `keep`, in their order. */
  function Kept(l: seq<Key>, keep: set<Key>): (r: seq<Key>)
    ensures |r| <= |l|
  {
    if l == [] then []
    else Kept(l[..|l| - 1], keep) + if l[|l| - 1] in keep then [l[|l| - 1]] else []
  }

  function Without(l: seq<Key>, key: Key): seq<Key> { Kept(l, Elements(l) - {key}) }

  /** What the cache is: the keys in memory from the least to the most recently used, their glosses,
    * and what is on disk. */
  datatype Lru = Lru(order: seq<Key>, values: map<Key, string>, disk: Option<map<Key, string>>)
  {
    ghost predicate Valid(capacity: nat) {
      |order| <= capacity && Distinct(order) && Elements(order) == values.Keys
    }

    function Touch(key: Key): Lru { this.(order := Without(order, key) + [key]) }

    function Remember(capacity: nat, key: Key, value: string): Lru {
      if key in values then Touch(key).(values := values[key := value])
      else if |order| >= capacity && order != [] then Lru(order[1..] + [key], (values - {order[0]})[key := value], disk)
      else Lru(order + [key], values[key := value], disk)
    }

    function OnDisk(key: Key): Option<string> {
      if disk.Some? && key in disk.value then Some(disk.value[key]) else None
    }

    predicate Has(key: Key) { key in values || OnDisk(key).Some? }

    /** What `get` answers. */
    function Answer(key: Key): Option<string> {
      if key in values then Some(values[key]) else OnDisk(key)
    }

    function Get(capacity: nat, key: Key): Lru {
      if key in values then Touch(key)
      else if OnDisk(key).Some? then Remember(capacity, key, OnDisk(key).value)
      else this
    }

    /** `written` says whether the disk took the write. */
    function Insert(capacity: nat, key: Key, value: string, written: bool): Lru {
      var stored := if disk.Some? && written then this.(disk := Some(disk.value[key := value])) else this;
      stored.Remember(capacity, key, value)
    }
  }

  // ----- the cache as it is written

  datatype Entry = Entry(value: string, usedAt: nat)

  /** `l` runs from the oldest tick to the newest. */
  ghost predicate Ticking(l: seq<Key>, entries: map<Key, Entry>) {
    && (forall i :: 0 <= i < |l| ==> l[i] in entries)
    && (forall i, j :: 0 <= i < j < |l| ==> entries[l[i]].usedAt < entries[l[j]].usedAt)
  }

  ghost function Values(entries: map<Key, Entry>): map<Key, string> {
    map k | k in entries :: entries[k].value
  }

  class GlossCache {
    var entries: map<Key, Entry>
    var tick: nat
    var store: Option<map<Key, string>>
    const capacity: nat
    ghost var order: seq<Key>

    ghost predicate Valid()
      reads this
    {
      && 1 <= capacity && |order| <= capacity
      && Elements(order) == entries.Keys && Ticking(order, entries)
      && forall k :: k in entries ==> entries[k].usedAt <= tick
    }

    ghost function State(): Lru
      reads this
    {
      Lru(order, Values(entries), store)
    }

    constructor (capacity: nat, store: Option<map<Key, string>>)
      ensures Valid() && State() == Lru([], map[], store)
      ensures this.capacity == if capacity == 0 then 1 else capacity
    {
      this.capacity := if capacity == 0 then 1 else capacity;
      this.store := store;
      entries, tick, order := map[], 0, [];
    }

    method NextTick() returns (now: nat)
      modifies this`tick
      ensures now == tick == old(tick) + 1
    {
      tick := tick + 1;
      now := tick;
    }

    /** A linear scan, in any order, for the smallest tick. */
    method LeastRecentlyUsed() returns (victim: Key)
      requires entries != map[]
      ensures victim in entries && forall k :: k in entries ==> entries[victim].usedAt <= entries[k].usedAt
    {
      var first :| first in entries;
      victim := first;
      var rest := entries.Keys - {victim};
      while rest != {}
        invariant victim in entries && rest <= entries.Keys
        invariant forall k :: k in entries && k !in rest ==> entries[victim].usedAt <= entries[k].usedAt
        decreases rest
      {
        var key :| key in rest;
        rest := rest - {key};
        if entries[key].usedAt < entries[victim].usedAt {
          victim := key;
        }
      }
    }

    /** Ticks differ, so the order of the scan does not matter: the victim is the front of the list. */
    method EvictLeastRecentlyUsed()
      requires Valid() && order != []
      modifies this`entries, this`order
      ensures Valid() && order == old(order)[1..]
      ensures entries == old(entries) - {old(order)[0]}
      ensures Values(entries) == Values(old(entries)) - {old(order)[0]}
    {
      hide Ticking, Elements, Values, Distinct;
      FirstIsThere(order);
      var victim := LeastRecentlyUsed();
      OldestIsFirst(order, entries, victim);
      TickingRest(order, entries);
      FrontGone(order);
      entries := entries - {victim};
      order := order[1..];
    }

    method Remember(key: Key, value: string)
      requires Valid()
      modifies this`entries, this`tick, this`order
      ensures Valid() && State() == old(State()).Remember(capacity, key, value)
    {
      hide Without, Ticking, Values, Elements;
      var now := NextTick();
      TickingIsDistinct(order, entries);
      CountOf(order);
      ValuesUpdate(entries, key, Entry(value, now));
      if |entries| >= capacity && key !in entries {
        EvictLeastRecentlyUsed();
      }
      Touched(order, key, entries, Entry(value, now));
      ValuesUpdate(entries, key, Entry(value, now));
      NothingWithout(order, key);
      entries := entries[key := Entry(value, now)];
      order := Without(order, key) + [key];
    }

    method Remembered(key: Key) returns (r: Option<string>)
      requires Valid()
      modifies this`entries, this`tick, this`order
      ensures Valid()
      ensures r == if key in old(entries) then Some(old(entries)[key].value) else None
      ensures State() == if key in old(entries) then old(State()).Touch(key) else old(State())
    {
      hide Without, Ticking, Values, Elements;
      var now := NextTick();
      if key !in entries {
        return None;
      }
      Touched(order, key, entries, entries[key].(usedAt := now));
      ValuesUpdate(entries, key, entries[key].(usedAt := now));
      WithoutCount(order, key);
      r := Some(entries[key].value);
      entries := entries[key := entries[key].(usedAt := now)];
      order := Without(order, key) + [key];
    }

    method Get(key: Key) returns (r: Option<string>)
      requires Valid()
      modifies this`entries, this`tick, this`order
      ensures Valid() && State() == old(State()).Get(capacity, key)
      ensures r == old(State()).Answer(key)
    {
      r := Remembered(key);
      if r.Some? {
        return;
      }
      if store.None? || key !in store.value {
        return None;
      }
      r := Some(store.value[key]);
      Remember(key, store.value[key]);
    }

    /** Asking leaves everything as it is. */
    method ContainsKey(key: Key) returns (r: bool)
      requires Valid()
      ensures r == State().Has(key)
    {
      return key in entries || (store.Some? && key in store.value);
    }

    method Insert(key: Key, value: string, written: bool)
      requires Valid()
      modifies this
      ensures Valid() && State() == old(State()).Insert(capacity, key, value, written)
    {
      if store.Some? && written {
        store := Some(store.value[key := value]);
      }
      Remember(key, value);
    }
  }

  lemma FirstIsThere(order: seq<Key>)
    requires order != []
    ensures order[0] in Elements(order)
  {
  }

  lemma OldestIsFirst(order: seq<Key>, entries: map<Key, Entry>, victim: Key)
    requires order != [] && Ticking(order, entries) && Elements(order) == entries.Keys && victim in entries
    requires forall k :: k in entries ==> entries[victim].usedAt <= entries[k].usedAt
    ensures victim == order[0]
  {
    assert victim in Elements(order) && order[0] in Elements(order);
    var i :| 0 <= i < |order| && order[i] == victim;
  }

  lemma FrontGone(order: seq<Key>)
    requires order != [] && Distinct(order)
    ensures Elements(order[1..]) == Elements(order) - {order[0]}
  {
    forall k | k in order && k != order[0] ensures k in order[1..] {
      var i :| 0 <= i < |order| && order[i] == k;
      assert order[1..][i - 1] == k;
    }
  }

  lemma {:induction false} CountOf(l: seq<Key>)
    requires Distinct(l)
    ensures |Elements(l)| == |l|
  {
    if l != [] {
      CountOf(l[1..]);
      FrontGone(l);
    }
  }

  lemma {:induction false} KeptIn(l: seq<Key>, keep: set<Key>, key: Key)
    ensures key in Kept(l, keep) <==> key in l && key in keep
  {
    if l != [] { KeptIn(l[..|l| - 1], keep, key); }
  }

  lemma KeptElements(l: seq<Key>, keep: set<Key>)
    ensures Elements(Kept(l, keep)) == Elements(l) * keep
  {
    forall k ensures k in Kept(l, keep) <==> k in l && k in keep { KeptIn(l, keep, k); }
  }

  lemma {:induction false} KeptAll(l: seq<Key>, keep: set<Key>)
    requires Elements(l) <= keep
    ensures Kept(l, keep) == l
  {
    if l != [] {
      assert Elements(l[..|l| - 1]) <= Elements(l);
      assert l[|l| - 1] in Elements(l);
      KeptAll(l[..|l| - 1], keep);
    }
  }

  lemma {:induction false} KeptSame(l: seq<Key>, a: set<Key>, b: set<Key>)
    requires forall k :: k in l ==> (k in a <==> k in b)
    ensures Kept(l, a) == Kept(l, b)
  {
    if l != [] { KeptSame(l[..|l| - 1], a, b); }
  }

  lemma {:induction false} KeptDistinct(l: seq<Key>, keep: set<Key>)
    requires Distinct(l)
    ensures Distinct(Kept(l, keep))
  {
    if l != [] {
      KeptDistinct(l[..|l| - 1], keep);
      KeptIn(l[..|l| - 1], keep, l[|l| - 1]);
    }
  }

  lemma {:induction false} KeptTicks(l: seq<Key>, keep: set<Key>, entries: map<Key, Entry>)
    requires Ticking(l, entries)
    ensures Ticking(Kept(l, keep), entries)
  {
    if l != [] {
      var before := l[..|l| - 1];
      KeptTicks(before, keep, entries);
      forall i | 0 <= i < |Kept(before, keep)| ensures Kept(before, keep)[i] in before {
        KeptIn(before, keep, Kept(before, keep)[i]);
      }
    }
  }

  lemma WithoutTicks(l: seq<Key>, key: Key, entries: map<Key, Entry>)
    requires Ticking(l, entries)
    ensures Ticking(Without(l, key), entries) && Elements(Without(l, key)) == Elements(l) - {key}
  {
    KeptTicks(l, Elements(l) - {key}, entries);
    KeptElements(l, Elements(l) - {key});
  }

  lemma TickingIsDistinct(l: seq<Key>, entries: map<Key, Entry>)
    requires Ticking(l, entries)
    ensures Distinct(l)
  {
  }

  lemma TickingRest(l: seq<Key>, entries: map<Key, Entry>)
    requires l != [] && Ticking(l, entries)
    ensures Distinct(l) && Ticking(l[1..], entries - {l[0]})
    ensures Values(entries - {l[0]}) == Values(entries) - {l[0]}
  {
    assert forall i :: 1 <= i < |l| ==> l[i] == l[1..][i - 1];
  }

  /** A key used just now goes to the end. */
  lemma Touched(l: seq<Key>, key: Key, entries: map<Key, Entry>, entry: Entry)
    requires Ticking(l, entries) && Elements(l) == entries.Keys
    requires forall k :: k in entries ==> entries[k].usedAt < entry.usedAt
    ensures var after := Without(l, key) + [key];
      Ticking(after, entries[key := entry]) && Elements(after) == entries[key := entry].Keys
  {
    hide Without;
    WithoutTicks(l, key, entries);
    var rest := Without(l, key);
    assert forall i :: 0 <= i < |rest| ==> rest[i] in Elements(rest);
    assert forall k :: k in rest + [key] <==> k in rest || k == key;
    assert Elements(rest + [key]) == Elements(rest) + {key};
    assert entries[key := entry].Keys == entries.Keys + {key};
  }

  lemma ValuesUpdate(entries: map<Key, Entry>, key: Key, entry: Entry)
    ensures Values(entries[key := entry]) == Values(entries)[key := entry.value]
    ensures Values(entries).Keys == entries.Keys
    ensures key in entries && entry.value == entries[key].value ==> Values(entries[key := entry]) == Values(entries)
  {
  }

  lemma NothingWithout(l: seq<Key>, key: Key)
    ensures key !in Elements(l) ==> Without(l, key) == l
    ensures key in Elements(l) ==> |Without(l, key)| < |l|
  {
    if key !in l { KeptAll(l, Elements(l) - {key}); } else { WithoutCount(l, key); }
  }

  lemma {:induction false} KeptFewer(l: seq<Key>, keep: set<Key>, key: Key)
    requires key in l && key !in keep
    ensures |Kept(l, keep)| < |l|
  {
    if l[|l| - 1] != key { KeptFewer(l[..|l| - 1], keep, key); }
  }

  lemma WithoutCount(l: seq<Key>, key: Key)
    requires key in Elements(l)
    ensures |Without(l, key)| < |l|
  {
    KeptFewer(l, Elements(l) - {key}, key);
  }
}
