/** The engine input of a batch: every segment once, and where each list's own segments ended up. */
module Slots {
  import opened Lists

  /** The strings of `l`, each where it occurs first. */
  function Firsts(l: seq<string>): seq<string> {
    if l == [] then []
    else
      var k := |l| - 1;
      Firsts(l[..k]) + if l[k] in l[..k] then [] else [l[k]]
  }

  function IndexIn(l: seq<string>, s: string): (n: nat)
    ensures n <= |l|
  {
    if l == [] || l[0] == s then 0 else 1 + IndexIn(l[1..], s)
  }

  function SlotsIn(segments: seq<string>, list: seq<string>): (r: seq<nat>)
    ensures |r| == |list|
  {
    seq(|list|, j requires 0 <= j < |list| => IndexIn(segments, list[j]))
  }

  datatype Asked = Asked(segments: seq<string>, slots: seq<seq<nat>>)

  function BatchOf(lists: seq<seq<string>>): (r: Asked)
    ensures |r.slots| == |lists|
  {
    var segments := Firsts(Flat(lists));
    Asked(segments, seq(|lists|, i requires 0 <= i < |lists| => SlotsIn(segments, lists[i])))
  }

  lemma {:induction false} FirstsOf(l: seq<string>)
    ensures Distinct(Firsts(l))
    ensures forall s :: s in Firsts(l) <==> s in l
  {
    if l != [] {
      var k := |l| - 1;
      FirstsOf(l[..k]);
      assert l == l[..k] + [l[k]];
    }
  }

  lemma {:induction false} IndexAt(l: seq<string>, s: string, n: nat)
    requires Distinct(l) && n < |l| && l[n] == s
    ensures IndexIn(l, s) == n
  {
    if n > 0 { IndexAt(l[1..], s, n - 1); }
  }

  lemma IndexFound(l: seq<string>, s: string)
    requires Distinct(l) && s in l
    ensures IndexIn(l, s) < |l| && l[IndexIn(l, s)] == s
  {
    var n :| 0 <= n < |l| && l[n] == s;
    IndexAt(l, s, n);
  }

  lemma {:induction false} FlatHolds(lists: seq<seq<string>>, i: nat)
    requires i < |lists|
    ensures forall s :: s in lists[i] ==> s in Flat(lists)
    decreases |lists|
  {
    if i < |lists| - 1 { FlatHolds(lists[..|lists| - 1], i); }
  }

  /** Each segment is asked for once, every slot is in range and leads to the segment it was made for. */
  lemma BatchFits(lists: seq<seq<string>>)
    ensures var b := BatchOf(lists);
      && Distinct(b.segments)
      && (forall s :: s in b.segments <==> s in Flat(lists))
      && forall i, j :: 0 <= i < |lists| && 0 <= j < |lists[i]| ==>
           |b.slots[i]| == |lists[i]| && b.slots[i][j] < |b.segments| && b.segments[b.slots[i][j]] == lists[i][j]
  {
    hide Firsts, IndexIn, Flat;
    var b := BatchOf(lists);
    FirstsOf(Flat(lists));
    forall i, j | 0 <= i < |lists| && 0 <= j < |lists[i]|
      ensures b.slots[i][j] < |b.segments| && b.segments[b.slots[i][j]] == lists[i][j]
    {
      FlatHolds(lists, i);
      assert lists[i][j] in lists[i];
      IndexFound(b.segments, lists[i][j]);
    }
  }

  /** The slots of a list as they were when it was read: later segments do not move them. */
  lemma {:induction false} IndexStays(l: seq<string>, more: seq<string>, s: string)
    requires s in l
    ensures IndexIn(l + more, s) == IndexIn(l, s)
  {
    if l[0] != s {
      IndexStays(l[1..], more, s);
      assert (l + more)[1..] == l[1..] + more;
    }
  }

  lemma {:induction false} FirstsGrow(a: seq<string>, b: seq<string>)
    ensures Firsts(a) <= Firsts(a + b)
  {
    if b != [] {
      FirstsGrow(a, b[..|b| - 1]);
      assert (a + b)[..|a + b| - 1] == a + b[..|b| - 1];
    } else {
      assert a + b == a;
    }
  }

  lemma FirstsNext(l: seq<string>, s: string)
    ensures Firsts(l + [s]) == Firsts(l) + if s in l then [] else [s]
  {
    assert (l + [s])[..|l|] == l;
  }

  lemma SlotsStay(a: seq<string>, b: seq<string>, list: seq<string>)
    requires forall s :: s in list ==> s in a
    ensures SlotsIn(Firsts(a + b), list) == SlotsIn(Firsts(a), list)
  {
    hide Firsts, IndexIn;
    FirstsGrow(a, b);
    FirstsOf(a);
    var more := Firsts(a + b)[|Firsts(a)|..];
    assert Firsts(a + b) == Firsts(a) + more;
    forall j | 0 <= j < |list| ensures IndexIn(Firsts(a + b), list[j]) == IndexIn(Firsts(a), list[j]) {
      assert list[j] in list;
      IndexStays(Firsts(a), more, list[j]);
    }
  }

  /** `seen` says of every segment where it is. */
  ghost predicate Indexes(seen: map<string, nat>, segments: seq<string>) {
    && (forall s :: s in seen <==> s in segments)
    && (forall s :: s in seen ==> seen[s] == IndexIn(segments, s) < |segments|)
  }

  lemma IndexesNext(seen: map<string, nat>, segments: seq<string>, s: string)
    requires Indexes(seen, segments) && s !in segments
    ensures Indexes(seen[s := |segments|], segments + [s])
  {
    hide IndexIn;
    forall t | t in segments ensures IndexIn(segments + [s], t) == IndexIn(segments, t) { IndexStays(segments, [s], t); }
    IndexLast(segments, s);
  }

  lemma {:induction false} IndexLast(l: seq<string>, s: string)
    requires s !in l
    ensures IndexIn(l + [s], s) == |l|
  {
    if l != [] {
      IndexLast(l[1..], s);
      assert (l + [s])[1..] == l[1..] + [s];
    }
  }

  /** The slots of one list, adding the segments not met before. */
  method AddList(segments: seq<string>, seen: map<string, nat>, list: seq<string>, ghost before: seq<string>)
    returns (segments': seq<string>, seen': map<string, nat>, slots: seq<nat>)
    requires segments == Firsts(before) && Indexes(seen, segments)
    ensures segments' == Firsts(before + list) && Indexes(seen', segments')
    ensures slots == SlotsIn(segments', list)
  {
    hide Firsts, IndexIn, Indexes;
    segments', seen', slots := segments, seen, [];
    assert before + list[..0] == before;
    for j := 0 to |list|
      invariant segments' == Firsts(before + list[..j]) && Indexes(seen', segments')
      invariant slots == SlotsIn(segments', list[..j])
    {
      var s := list[j];
      assert before + list[..j + 1] == before + list[..j] + [s];
      FirstsNext(before + list[..j], s);
      FirstsOf(before + list[..j]);
      SlotsStay(before + list[..j], [s], list[..j]);
      SeenHas(seen', segments', s);
      if s !in seen' {
        IndexesNext(seen', segments', s);
        IndexLast(segments', s);
        seen' := seen'[s := |segments'|];
        segments' := segments' + [s];
        slots := slots + [|segments'| - 1];
      } else {
        slots := slots + [seen'[s]];
      }
      assert list[..j + 1] == list[..j] + [s];
    }
    assert list[..|list|] == list;
  }

  lemma SeenHas(seen: map<string, nat>, segments: seq<string>, s: string)
    requires Indexes(seen, segments)
    ensures s in seen <==> s in segments
    ensures s in seen ==> seen[s] == IndexIn(segments, s)
  {
  }

  method Of(lists: seq<seq<string>>) returns (r: Asked)
    ensures r == BatchOf(lists)
  {
    hide Firsts, IndexIn;
    var segments, seen: map<string, nat>, slots: seq<seq<nat>> := [], map[], [];
    NoSegments();
    for i := 0 to |lists|
      invariant segments == Firsts(Flat(lists[..i])) && Indexes(seen, segments)
      invariant |slots| == i && forall k :: 0 <= k < i ==> slots[k] == SlotsIn(segments, lists[k])
    {
      assert lists[..i + 1][..i] == lists[..i];
      var mine;
      forall k | 0 <= k < i ensures SlotsIn(Firsts(Flat(lists[..i]) + lists[i]), lists[k]) == SlotsIn(segments, lists[k]) {
        FlatHolds(lists[..i], k);
        SlotsStay(Flat(lists[..i]), lists[i], lists[k]);
      }
      segments, seen, mine := AddList(segments, seen, lists[i], Flat(lists[..i]));
      slots := slots + [mine];
    }
    assert lists[..|lists|] == lists;
    return Asked(segments, slots);
  }

  lemma NoSegments()
    ensures Firsts([]) == []
  {
  }
}
