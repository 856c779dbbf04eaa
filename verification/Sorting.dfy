/** The stable sort the pipeline leans on, and what is true of any use of it. */
module Sorting {

  /** `x` put in front of the first element it need not follow. */
  function Insert<T>(x: T, s: seq<T>, before: (T, T) -> bool): seq<T> {
    if s == [] || !before(s[0], x) then [x] + s else [s[0]] + Insert(x, s[1..], before)
  }

  /** Insertion from the right: equal elements keep the order they came in. */
  function Sort<T>(s: seq<T>, before: (T, T) -> bool): (r: seq<T>)
    ensures |r| == |s|
  {
    if s == [] then []
    else
      InsertPermutes(s[0], Sort(s[1..], before), before);
      Insert(s[0], Sort(s[1..], before), before)
  }

  /** `before` is a strict weak order: what a comparison of keys is. */
  ghost predicate StrictWeak<T(!new)>(before: (T, T) -> bool) {
    && (forall a, b :: before(a, b) ==> !before(b, a))
    && (forall a, b, c :: !before(b, a) && !before(c, b) ==> !before(c, a))
  }

  /** Nothing stands behind an element it ought to precede. */
  ghost predicate Sorted<T>(s: seq<T>, before: (T, T) -> bool) {
    forall i, j :: 0 <= i < j < |s| ==> !before(s[j], s[i])
  }

  lemma {:induction false} InsertPermutes<T>(x: T, s: seq<T>, before: (T, T) -> bool)
    ensures |Insert(x, s, before)| == |s| + 1
    ensures multiset(Insert(x, s, before)) == multiset(s) + multiset{x}
  {
    if s == [] || !before(s[0], x) {
    } else {
      InsertPermutes(x, s[1..], before);
      assert s == [s[0]] + s[1..];
    }
  }

  lemma {:induction false} SortPermutes<T>(s: seq<T>, before: (T, T) -> bool)
    ensures multiset(Sort(s, before)) == multiset(s)
  {
    if s == [] {
    } else {
      SortPermutes(s[1..], before);
      InsertPermutes(s[0], Sort(s[1..], before), before);
      assert s == [s[0]] + s[1..];
    }
  }

  lemma {:induction false} InsertKeepsSorted<T(!new)>(x: T, s: seq<T>, before: (T, T) -> bool)
    requires StrictWeak(before) && Sorted(s, before)
    ensures Sorted(Insert(x, s, before), before)
  {
    if s == [] || !before(s[0], x) {
      var r := [x] + s;
      forall i, j | 0 <= i < j < |r| ensures !before(r[j], r[i]) {
        if i == 0 {
          assert r[j] == s[j - 1];
          assert j == 1 || !before(s[j - 1], s[0]);
          assert !before(s[0], x);
        } else {
          assert r[i] == s[i - 1] && r[j] == s[j - 1];
        }
      }
    } else {
      var t := Insert(x, s[1..], before);
      InsertKeepsSorted(x, s[1..], before);
      InsertPermutes(x, s[1..], before);
      var r := [s[0]] + t;
      forall i, j | 0 <= i < j < |r| ensures !before(r[j], r[i]) {
        if i == 0 {
          assert r[j] == t[j - 1] && t[j - 1] in multiset(t);
          if t[j - 1] != x {
            assert t[j - 1] in multiset(s[1..]);
            var k :| 0 <= k < |s[1..]| && s[1..][k] == t[j - 1];
            assert s[k + 1] == t[j - 1];
          }
        } else {
          assert r[i] == t[i - 1] && r[j] == t[j - 1];
        }
      }
    }
  }

  lemma {:induction false} SortSorts<T(!new)>(s: seq<T>, before: (T, T) -> bool)
    requires StrictWeak(before)
    ensures Sorted(Sort(s, before), before)
  {
    if s == [] {
    } else {
      SortSorts(s[1..], before);
      InsertKeepsSorted(s[0], Sort(s[1..], before), before);
    }
  }

  function Map<A, B>(f: A -> B, s: seq<A>): (r: seq<B>)
    ensures |r| == |s|
    ensures forall i :: 0 <= i < |s| ==> r[i] == f(s[i])
  {
    seq(|s|, i requires 0 <= i < |s| => f(s[i]))
  }

  lemma {:induction false} InsertCommutes<A(!new), B>(x: A, s: seq<A>, f: A -> B,
                                                before: (A, A) -> bool, after: (B, B) -> bool)
    requires forall a, b :: after(f(a), f(b)) == before(a, b)
    ensures Map(f, Insert(x, s, before)) == Insert(f(x), Map(f, s), after)
  {
    if s == [] || !before(s[0], x) {
      assert Map(f, [x] + s) == [f(x)] + Map(f, s);
    } else {
      InsertCommutes(x, s[1..], f, before, after);
      assert Map(f, s)[1..] == Map(f, s[1..]);
      assert Map(f, [s[0]] + Insert(x, s[1..], before)) == [f(s[0])] + Map(f, Insert(x, s[1..], before));
    }
  }

  /** Sorting looks at keys only, so it commutes with anything that keeps them. */
  lemma {:induction false} SortCommutes<A(!new), B>(s: seq<A>, f: A -> B,
                                              before: (A, A) -> bool, after: (B, B) -> bool)
    requires forall a, b :: after(f(a), f(b)) == before(a, b)
    ensures Map(f, Sort(s, before)) == Sort(Map(f, s), after)
  {
    if s == [] {
    } else {
      SortCommutes(s[1..], f, before, after);
      InsertCommutes(s[0], Sort(s[1..], before), f, before, after);
      assert Map(f, s)[1..] == Map(f, s[1..]);
    }
  }
}
