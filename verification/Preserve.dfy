/** Placeholders, and one pass over a text that puts spans in their places.
 *
 * A span that is hidden is replaced by a placeholder, `X<n>Q`, and put back afterwards by the
 * index it carries. Offsets count characters; the source counts bytes at the same places.
 */
module Preserve {
  import opened Text
  import opened Wrappers

  /** The largest index `usize` can hold on a 64-bit target. */
  const USIZE_MAX: nat := 0xFFFF_FFFF_FFFF_FFFF

  // ----- placeholders

  function Decimal(n: nat): (r: string)
    ensures r != "" && forall i :: 0 <= i < |r| ==> IsDigit(r[i])
  {
    (if n < 10 then "" else Decimal(n / 10)) + [('0' as int + n % 10) as char]
  }

  function Placeholder(index: nat): string { "X" + Decimal(index) + "Q" }

  predicate AllDigits(s: string) { forall i :: 0 <= i < |s| ==> IsDigit(s[i]) }

  /** `str::parse` into `usize`, digit by digit, refusing to overflow at each. */
  function ParseFrom(acc: nat, digits: string): (r: Option<nat>)
    requires AllDigits(digits) && acc <= USIZE_MAX
    ensures r.Some? ==> acc <= r.value <= USIZE_MAX
    decreases digits
  {
    if digits == "" then Some(acc)
    else
      var next := 10 * acc + (digits[0] as int - '0' as int);
      if next > USIZE_MAX then None else ParseFrom(next, digits[1..])
  }

  /** The first position of `c` in `s`. */
  function Find(c: char, s: string): (r: Option<nat>)
    ensures r.Some? ==> r.value < |s| && s[r.value] == c
  {
    if s == "" then None
    else if s[0] == c then Some(0)
    else
      var rest := Find(c, s[1..]);
      if rest.None? then None else Some(rest.value + 1)
  }

  /** The index a placeholder at the front of `text` encodes, and its length. */
  function PlaceholderAt(text: string): (r: Option<(nat, nat)>)
    ensures r.Some? ==> 3 <= r.value.1 <= |text| && text[0] == 'X' && text[r.value.1 - 1] == 'Q'
    ensures r.Some? ==> r.value.0 <= USIZE_MAX
  {
    if text == "" || text[0] != 'X' then None
    else
      var body := text[1..];
      var end := Find('Q', body);
      if end.None? || end.value == 0 || !AllDigits(body[..end.value]) then None
      else
        var index := ParseFrom(0, body[..end.value]);
        if index.None? then None
        else Some((index.value, end.value + 2))
  }

  /** What an `X` at the front of `text` needs behind it to be a placeholder at all. */
  ghost predicate Digits(text: string, k: nat) {
    && 1 <= k && k + 2 <= |text| && text[0] == 'X' && text[k + 1] == 'Q'
    && forall i :: 1 <= i <= k ==> IsDigit(text[i])
  }

  lemma {:induction false} FindFirst(c: char, s: string)
    ensures forall i :: 0 <= i < (if Find(c, s).Some? then Find(c, s).value else |s|) ==> s[i] != c
  {
    if s != "" && s[0] != c {
      FindFirst(c, s[1..]);
      assert forall i :: 1 <= i < |s| ==> s[i] == s[1..][i - 1];
    }
  }

  lemma FindIs(c: char, s: string, k: nat)
    requires k < |s| && s[k] == c && forall i :: 0 <= i < k ==> s[i] != c
    ensures Find(c, s) == Some(k)
  {
    FindFirst(c, s);
  }

  lemma PlaceholderIff(text: string, k: nat)
    requires Digits(text, k)
    ensures AllDigits(text[1..k + 1])
    ensures PlaceholderAt(text) ==
      var index := ParseFrom(0, text[1..k + 1]); if index.None? then None else Some((index.value, k + 2))
  {
    FindIs('Q', text[1..], k);
    assert text[1..][..k] == text[1..k + 1];
  }

  /** Whether a text opens with a placeholder is decided by the characters of the placeholder. */
  lemma PlaceholderSame(text: string, other: string, k: nat)
    requires Digits(text, k) && k + 2 <= |other|
    requires forall i :: 0 <= i < k + 2 ==> other[i] == text[i]
    ensures PlaceholderAt(other) == PlaceholderAt(text)
  {
    hide PlaceholderAt;
    PlaceholderIff(text, k);
    PlaceholderIff(other, k);
    assert other[1..k + 1] == text[1..k + 1];
  }

  lemma PlaceholderDigits(text: string) returns (k: nat)
    requires PlaceholderAt(text).Some?
    ensures Digits(text, k) && PlaceholderAt(text).value.1 == k + 2
  {
    var body := text[1..];
    k := Find('Q', body).value;
    forall i | 1 <= i <= k ensures IsDigit(text[i]) {
      assert text[i] == body[..k][i - 1];
    }
  }

  lemma {:induction false} ParseAppend(acc: nat, a: string, b: string)
    requires AllDigits(a) && AllDigits(b) && acc <= USIZE_MAX
    ensures AllDigits(a + b)
    ensures ParseFrom(acc, a + b) ==
      var first := ParseFrom(acc, a); if first.None? then None else ParseFrom(first.value, b)
    decreases a
  {
    if a == "" {
      assert a + b == b;
    } else {
      assert (a + b)[1..] == a[1..] + b;
      var next := 10 * acc + (a[0] as int - '0' as int);
      if next <= USIZE_MAX { ParseAppend(next, a[1..], b); }
    }
  }

  /** Printing an index and parsing it back agree, up to the largest index there is. */
  lemma {:induction false} ParseDecimal(n: nat)
    requires n <= USIZE_MAX
    ensures ParseFrom(0, Decimal(n)) == Some(n)
  {
    var last := [('0' as int + n % 10) as char];
    assert last[1..] == "";
    if n < 10 {
      assert Decimal(n) == last;
    } else {
      ParseDecimal(n / 10);
      ParseAppend(0, Decimal(n / 10), last);
    }
  }

  /** The number a decimal numeral stands for. */
  function Value(digits: string): nat
    requires AllDigits(digits)
  {
    if digits == "" then 0 else 10 * Value(digits[..|digits| - 1]) + (digits[|digits| - 1] as int - '0' as int)
  }

  /** Parsing gives the number a numeral stands for, leading zeros or not, unless that is too large. */
  lemma {:induction false} ParseIsValue(digits: string)
    requires AllDigits(digits)
    ensures ParseFrom(0, digits) == if Value(digits) <= USIZE_MAX then Some(Value(digits)) else None
  {
    if digits != "" {
      var k := |digits| - 1;
      var last := [digits[k]];
      ParseIsValue(digits[..k]);
      ParseAppend(0, digits[..k], last);
      assert digits == digits[..k] + last && last[1..] == "";
    }
  }

  /** A text opens with a placeholder exactly when an `X`, digits and a `Q` stand there and the digits
    * are not too large an index. */
  lemma PlaceholderExactlyWhen(text: string, index: nat, length: nat)
    ensures PlaceholderAt(text) == Some((index, length)) <==>
      && length >= 3 && Digits(text, length - 2)
      && AllDigits(text[1..length - 1]) && Value(text[1..length - 1]) == index < 0x1_0000_0000_0000_0000
  {
    hide PlaceholderAt, AllDigits;
    if PlaceholderAt(text).Some? {
      var k := PlaceholderDigits(text);
      PlaceholderIff(text, k);
      ParseIsValue(text[1..k + 1]);
    }
    if length >= 3 && Digits(text, length - 2) {
      PlaceholderIff(text, length - 2);
      ParseIsValue(text[1..length - 1]);
    }
  }

  /** A placeholder reads back as what was written, whatever follows it. */
  lemma PlaceholderReadsBack(n: nat, rest: string)
    requires n <= USIZE_MAX
    ensures PlaceholderAt(Placeholder(n) + rest) == Some((n, |Placeholder(n)|))
  {
    var text, k := Placeholder(n) + rest, |Decimal(n)|;
    forall i | 1 <= i <= k ensures IsDigit(text[i]) {
      assert text[i] == Decimal(n)[i - 1];
    }
    PlaceholderIff(text, k);
    assert text[1..k + 1] == Decimal(n);
    ParseDecimal(n);
  }

  // ----- putting spans back

  /** The index the placeholder at the front of `text` names, of `size` allocated ones. */
  function Named(size: nat, text: string): (r: Option<nat>)
    ensures r.Some? ==> r.value < size
  {
    var at := PlaceholderAt(text);
    if at.Some? && at.value.0 < size then Some(at.value.0) else None
  }

  /** How much of `text` one step of the pass consumes: a placeholder, or one character. */
  function Width(size: nat, text: string): (n: nat)
    requires text != ""
    ensures 1 <= n <= |text|
  {
    if Named(size, text).Some? then PlaceholderAt(text).value.1 else 1
  }

  /** The indices of `text`'s placeholders, in the order one pass meets them. */
  function Met(size: nat, text: string): seq<nat> {
    if text == "" then []
    else
      var rest := Met(size, text[Width(size, text)..]);
      if Named(size, text).Some? then [Named(size, text).value] + rest else rest
  }

  /** `text` with every placeholder of an index in `table` replaced by the span it stands for. */
  function Restored(table: seq<string>, text: string): string {
    if text == "" then ""
    else
      (if Named(|table|, text).Some? then table[Named(|table|, text).value] else [text[0]])
      + Restored(table, text[Width(|table|, text)..])
  }

  /** `seen` marks every index below it that is in `met`, and no other. */
  ghost predicate Marks(seen: seq<bool>, met: seq<nat>) {
    forall i :: 0 <= i < |seen| ==> (seen[i] <==> i in met)
  }

  /** One pass, never a repeated replacement: what was just restored is not read again. */
  method Substitute(table: seq<string>, text: string) returns (restored: string, seen: seq<bool>)
    ensures restored == Restored(table, text)
    ensures |seen| == |table| && Marks(seen, Met(|table|, text))
  {
    hide PlaceholderAt, Find, Restored, Met;
    restored := "";
    seen := seq(|table|, _ => false);
    ghost var met: seq<nat> := [];
    var rest := text;
    var offset := Find('X', rest);
    while offset.Some?
      invariant offset == Find('X', rest)
      invariant restored + Restored(table, rest) == Restored(table, text)
      invariant met + Met(|table|, rest) == Met(|table|, text)
      invariant |seen| == |table| && Marks(seen, met)
      decreases |rest|
    {
      FindFirst('X', rest);
      NoPlaceholderBefore(table, rest, offset.value);
      Regrouped(restored, rest[..offset.value], Restored(table, rest[offset.value..]));
      restored := restored + rest[..offset.value];
      rest := rest[offset.value..];
      OneStep(table, rest);
      Regrouped(restored, Front(table, rest), Restored(table, rest[Width(|table|, rest)..]));
      var at := PlaceholderAt(rest);
      if at.Some? && at.value.0 < |table| {
        Regrouped(met, [at.value.0], Met(|table|, rest[at.value.1..]));
        restored := restored + table[at.value.0];
        seen := seen[at.value.0 := true];
        rest := rest[at.value.1..];
        met := met + [at.value.0];
      } else {
        restored := restored + "X";
        rest := rest[1..];
      }
      offset := Find('X', rest);
    }
    FindFirst('X', rest);
    NoPlaceholderBefore(table, rest, |rest|);
    assert rest[|rest|..] == "" && rest[..|rest|] == rest;
    RestoredNothing(table);
    restored := restored + rest;
  }

  lemma Regrouped<T>(a: seq<T>, b: seq<T>, c: seq<T>)
    ensures a + (b + c) == a + b + c
  {
  }

  lemma RestoredNothing(table: seq<string>)
    ensures Restored(table, "") == "" && Met(|table|, "") == []
  {
  }

  lemma NoPlaceholder(text: string)
    requires text == "" || text[0] != 'X'
    ensures PlaceholderAt(text).None?
  {
  }

  /** Text before the first `X` is copied through as it stands. */
  lemma {:induction false} NoPlaceholderBefore(table: seq<string>, text: string, n: nat)
    requires n <= |text| && forall i :: 0 <= i < n ==> text[i] != 'X'
    ensures Restored(table, text) == text[..n] + Restored(table, text[n..])
    ensures Met(|table|, text) == Met(|table|, text[n..])
  {
    hide PlaceholderAt, Restored, Met;
    if n == 0 {
      assert text[0..] == text && text[..0] == "";
    } else {
      NoPlaceholder(text);
      OneStep(table, text);
      var rest := text[1..];
      NoPlaceholderBefore(table, rest, n - 1);
      assert rest[n - 1..] == text[n..] && text[..n] == [text[0]] + rest[..n - 1];
    }
  }

  /** No placeholder of `a + b` can begin in `a` and end in `b`. */
  ghost predicate CleanCut(a: string, b: string) {
    a == "" || b == "" || !(a[|a| - 1] == 'X' || IsDigit(a[|a| - 1])) || !(b[0] == 'Q' || IsDigit(b[0]))
  }

  lemma DigitsAppend(a: string, b: string, k: nat)
    requires a != "" && CleanCut(a, b)
    ensures Digits(a + b, k) <==> Digits(a, k)
    ensures Digits(a, k) ==> PlaceholderAt(a + b) == PlaceholderAt(a)
  {
    var t := a + b;
    assert forall i :: 0 <= i < |a| ==> t[i] == a[i];
    assert b != "" ==> t[|a|] == b[0];
    assert k + 2 > |a| ==> 0 <= |a| - 1 <= k;
    if Digits(a, k) { PlaceholderSame(a, t, k); }
  }

  lemma PlaceholderAtAppend(a: string, b: string)
    requires a != "" && CleanCut(a, b)
    ensures PlaceholderAt(a + b) == PlaceholderAt(a)
  {
    hide PlaceholderAt, Digits, CleanCut;
    if PlaceholderAt(a).Some? {
      var k := PlaceholderDigits(a);
      DigitsAppend(a, b, k);
    } else if PlaceholderAt(a + b).Some? {
      var k := PlaceholderDigits(a + b);
      DigitsAppend(a, b, k);
    }
  }

  /** Restoring is piecewise wherever no placeholder straddles the cut. */
  lemma {:induction false} RestoredAppend(table: seq<string>, a: string, b: string)
    requires CleanCut(a, b)
    ensures Restored(table, a + b) == Restored(table, a) + Restored(table, b)
    ensures Met(|table|, a + b) == Met(|table|, a) + Met(|table|, b)
    decreases a
  {
    if a == "" {
      assert a + b == b;
    } else {
      var n := Width(|table|, a);
      CutAfter(a, b, n);
      RestoredAppend(table, a[n..], b);
      RestoredTwice(table, a, b, n);
    }
  }

  lemma RestoredTwice(table: seq<string>, a: string, b: string, n: nat)
    requires a != "" && CleanCut(a, b) && n == Width(|table|, a)
    requires Restored(table, a[n..] + b) == Restored(table, a[n..]) + Restored(table, b)
    requires Met(|table|, a[n..] + b) == Met(|table|, a[n..]) + Met(|table|, b)
    ensures Restored(table, a + b) == Restored(table, a) + Restored(table, b)
    ensures Met(|table|, a + b) == Met(|table|, a) + Met(|table|, b)
  {
    hide *;
    NamedAppend(|table|, a, b);
    assert (a + b)[n..] == a[n..] + b;
    FrontAppend(table, a, b);
    OneStep(table, a);
    OneStep(table, a + b);
  }

  /** What one step of the pass writes. */
  function Front(table: seq<string>, text: string): string
    requires text != ""
  {
    if Named(|table|, text).Some? then table[Named(|table|, text).value] else [text[0]]
  }

  lemma OneStep(table: seq<string>, text: string)
    requires text != ""
    ensures Restored(table, text) == Front(table, text) + Restored(table, text[Width(|table|, text)..])
    ensures Met(|table|, text) ==
      (if Named(|table|, text).Some? then [Named(|table|, text).value] else []) + Met(|table|, text[Width(|table|, text)..])
  {
  }

  lemma CutAfter(a: string, b: string, n: nat)
    requires CleanCut(a, b) && n <= |a|
    ensures CleanCut(a[n..], b)
  {
    assert a[n..] != "" ==> a[n..][|a[n..]| - 1] == a[|a| - 1];
  }

  lemma FrontAppend(table: seq<string>, a: string, b: string)
    requires a != "" && CleanCut(a, b)
    ensures Front(table, a + b) == Front(table, a)
  {
    NamedAppend(|table|, a, b);
  }

  lemma NamedAppend(size: nat, a: string, b: string)
    requires a != "" && CleanCut(a, b)
    ensures Named(size, a + b) == Named(size, a)
    ensures Width(size, a + b) == Width(size, a)
  {
    PlaceholderAtAppend(a, b);
    hide PlaceholderAt;
  }

  /** Every span a text's placeholders name is in what it is restored to. */
  lemma {:induction false} MetIsRestored(table: seq<string>, text: string, i: nat)
    requires i in Met(|table|, text)
    ensures i < |table| && Contains(Restored(table, text), table[i])
    decreases text
  {
    hide Named, Width, Contains;
    var rest := text[Width(|table|, text)..];
    var front := if Named(|table|, text).Some? then table[Named(|table|, text).value] else [text[0]];
    assert Restored(table, text) == front + Restored(table, rest);
    if Named(|table|, text) == Some(i) {
      ContainsSelf("", front, Restored(table, rest));
      assert "" + front + Restored(table, rest) == front + Restored(table, rest);
    } else {
      MetIsRestored(table, rest, i);
      ContainsWithin(front, Restored(table, rest), "", table[i]);
      assert front + Restored(table, rest) + "" == front + Restored(table, rest);
    }
  }
}
