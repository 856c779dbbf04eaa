/** The masked form of a text, and how it comes back.
 *
 * A text falls apart into characters that are copied and spans that are hidden; the masked
 * text prints the one as they are and numbers the others.
 */
module Masking {
  import opened Preserve
  import opened Protect
  import opened Text
  import opened Wrappers

  datatype Preserved = Preserved(text: string, kind: SpanKind)

  datatype Masked = Masked(source: string, masked: string, preserved: seq<Preserved>)

  datatype Part = Copied(c: char) | Hidden(span: Preserved)

  /** `rest` as copied characters and hidden spans, each span by the rule that claims it first. */
  function Parts(rest: string, previous: Option<char>): seq<Part> {
    if rest == "" then []
    else
      var span := ProtectedSpan(rest, previous);
      if span.Some? then
        var n := span.value.0;
        [Hidden(Preserved(rest[..n], span.value.1))] + Parts(rest[n..], Some(rest[n - 1]))
      else [Copied(rest[0])] + Parts(rest[1..], Some(rest[0]))
  }

  /** What the parts were cut from. */
  function Written(parts: seq<Part>): string {
    if parts == [] then ""
    else (match parts[0] case Copied(c) => [c] case Hidden(span) => span.text) + Written(parts[1..])
  }

  /** The masked text, when `n` spans were hidden before. */
  function Render(parts: seq<Part>, n: nat): string {
    if parts == [] then ""
    else match parts[0]
      case Copied(c) => [c] + Render(parts[1..], n)
      case Hidden(_) => Placeholder(n) + Render(parts[1..], n + 1)
  }

  function Spans(parts: seq<Part>): seq<Preserved> {
    if parts == [] then []
    else (match parts[0] case Copied(_) => [] case Hidden(span) => [span]) + Spans(parts[1..])
  }

  function Mask(text: string): Masked {
    Masked(text, Render(Parts(text, None), 0), Spans(Parts(text, None)))
  }

  /** Each hidden span, by index. */
  function Table(preserved: seq<Preserved>): (r: seq<string>)
    ensures |r| == |preserved| && forall i :: 0 <= i < |r| ==> r[i] == preserved[i].text
  {
    seq(|preserved|, i requires 0 <= i < |preserved| => preserved[i].text)
  }

  lemma PartsStep(rest: string, previous: Option<char>)
    requires rest != ""
    ensures var span := ProtectedSpan(rest, previous);
      if span.Some? then
        Parts(rest, previous) ==
          [Hidden(Preserved(rest[..span.value.0], span.value.1))] + Parts(rest[span.value.0..], Some(rest[span.value.0 - 1]))
      else Parts(rest, previous) == [Copied(rest[0])] + Parts(rest[1..], Some(rest[0]))
  {
  }

  lemma PartStep(part: Part, rest: seq<Part>, n: nat)
    ensures Written([part] + rest) == (match part case Copied(c) => [c] case Hidden(span) => span.text) + Written(rest)
    ensures Render([part] + rest, n) ==
      match part case Copied(c) => [c] + Render(rest, n) case Hidden(_) => Placeholder(n) + Render(rest, n + 1)
    ensures Spans([part] + rest) == (match part case Copied(_) => [] case Hidden(span) => [span]) + Spans(rest)
  {
    assert ([part] + rest)[1..] == rest;
  }

  /** The part `rest` begins with, and how much of it that is. */
  function FirstPart(rest: string, previous: Option<char>): (r: (Part, nat))
    requires rest != ""
    ensures 1 <= r.1 <= |rest|
  {
    var span := ProtectedSpan(rest, previous);
    if span.Some? then (Hidden(Preserved(rest[..span.value.0], span.value.1)), span.value.0) else (Copied(rest[0]), 1)
  }

  /** What the first part adds to the masked text and to the spans. */
  lemma FirstPartAdds(rest: string, previous: Option<char>, n: nat)
    requires rest != ""
    ensures var (part, width) := FirstPart(rest, previous);
      var behind := Parts(rest[width..], Some(rest[width - 1]));
      if part.Hidden? then
        && Render(Parts(rest, previous), n) == Placeholder(n) + Render(behind, n + 1)
        && Spans(Parts(rest, previous)) == [part.span] + Spans(behind)
      else
        && Render(Parts(rest, previous), n) == [part.c] + Render(behind, n)
        && Spans(Parts(rest, previous)) == Spans(behind)
  {
    hide Parts, Render, Spans, Written, ProtectedSpan, Placeholder;
    PartsStep(rest, previous);
    var (part, width) := FirstPart(rest, previous);
    PartStep(part, Parts(rest[width..], Some(rest[width - 1])), n);
  }

  method MaskText(text: string) returns (r: Masked)
    ensures r == Mask(text)
  {
    hide Parts, Render, Spans, Written, FirstPart, Placeholder;
    var masked, preserved, rest, previous := "", [], text, None;
    while rest != ""
      invariant masked + Render(Parts(rest, previous), |preserved|) == Render(Parts(text, None), 0)
      invariant preserved + Spans(Parts(rest, previous)) == Spans(Parts(text, None))
      decreases |rest|
    {
      FirstPartAdds(rest, previous, |preserved|);
      var (part, width) := FirstPart(rest, previous);
      if part.Hidden? {
        masked := masked + Placeholder(|preserved|);
        preserved := preserved + [part.span];
      } else {
        masked := masked + [part.c];
      }
      previous, rest := Some(rest[width - 1]), rest[width..];
    }
    Nothing(previous, |preserved|);
    r := Masked(text, masked, preserved);
  }

  lemma Nothing(previous: Option<char>, n: nat)
    ensures Parts("", previous) == [] && Render([], n) == "" && Spans([]) == [] && Written([]) == ""
  {
  }

  /** Masking loses nothing. */
  lemma {:induction false} PartsWritten(rest: string, previous: Option<char>)
    ensures Written(Parts(rest, previous)) == rest
    ensures |Spans(Parts(rest, previous))| <= |rest|
  {
    hide ProtectedSpan, Parts, Written, Spans, Render, Placeholder;
    if rest == "" {
      Nothing(previous, 0);
    } else {
      PartsStep(rest, previous);
      var span := ProtectedSpan(rest, previous);
      if span.Some? {
        var n := span.value.0;
        PartsWritten(rest[n..], Some(rest[n - 1]));
        PartStep(Hidden(Preserved(rest[..n], span.value.1)), Parts(rest[n..], Some(rest[n - 1])), 0);
        assert rest == rest[..n] + rest[n..];
      } else {
        PartsWritten(rest[1..], Some(rest[0]));
        PartStep(Copied(rest[0]), Parts(rest[1..], Some(rest[0])), 0);
        assert rest == [rest[0]] + rest[1..];
      }
    }
  }

  lemma PlaceholderOpens(n: nat)
    ensures Placeholder(n) != "" && Placeholder(n)[0] == 'X' && Placeholder(n)[|Placeholder(n)| - 1] == 'Q'
  {
  }

  /** The first `k` characters are there, and none of them is an `X`. */
  ghost predicate NoX(s: string, k: nat) {
    k <= |s| && forall j :: 0 <= j < k ==> s[j] != 'X'
  }

  lemma Behind(c: char, r: string, w: string, k: nat)
    requires NoX([c] + r, k + 1)
    ensures NoX(r, k)
    ensures k <= |w| && w[..k] == r[..k] ==> ([c] + w)[..k + 1] == ([c] + r)[..k + 1]
  {
    assert forall j :: 0 <= j < |r| ==> ([c] + r)[j + 1] == r[j];
  }

  /** Up to the first `X`, the masked text is the text. */
  lemma {:induction false} RenderAgrees(parts: seq<Part>, n: nat, k: nat)
    requires NoX(Render(parts, n), k)
    ensures k <= |Written(parts)| && Written(parts)[..k] == Render(parts, n)[..k]
  {
    if k != 0 {
      assert parts != [];
      hide Written, Render, Placeholder, NoX;
      PartStep(parts[0], parts[1..], n);
      assert parts == [parts[0]] + parts[1..];
      PlaceholderHasX(n, Render(parts[1..], n + 1), k);
      match parts[0]
      case Copied(c) =>
        Behind(c, Render(parts[1..], n), Written(parts[1..]), k - 1);
        RenderAgrees(parts[1..], n, k - 1);
      case Hidden(_) =>
    }
  }

  lemma PlaceholderHasX(n: nat, rest: string, k: nat)
    requires k != 0
    ensures !NoX(Placeholder(n) + rest, k)
  {
    PlaceholderOpens(n);
    hide Placeholder;
    assert (Placeholder(n) + rest)[0] == 'X';
  }

  /** Nothing copied can read as a placeholder: not on its own, and not with what follows it. */
  lemma CopiedIsNoPlaceholder(rest: string, parts: seq<Part>, n: nat)
    requires rest != "" && PlaceholderAt(rest).None?
    requires Written(parts) == rest[1..]
    ensures PlaceholderAt([rest[0]] + Render(parts, n)).None?
  {
    hide Render, Written, PlaceholderAt;
    var t := [rest[0]] + Render(parts, n);
    if PlaceholderAt(t).Some? {
      var k := PlaceholderDigits(t);
      assert forall j :: 0 <= j < k + 1 ==> Render(parts, n)[j] == t[j + 1];
      assert NoX(Render(parts, n), k + 1);
      RenderAgrees(parts, n, k + 1);
      forall i | 0 <= i < k + 2 ensures i < |rest| && rest[i] == t[i] {
        if i > 0 {
          assert rest[i] == rest[1..][..k + 1][i - 1] == Render(parts, n)[..k + 1][i - 1];
        }
      }
      PlaceholderSame(t, rest, k);
    }
  }

  /** The indices one pass over a masked text meets: all of them, once each, in order. */
  function UpTo(from: nat, count: nat): (r: seq<nat>)
    ensures |r| == count && forall i :: 0 <= i < count ==> r[i] == from + i
  {
    seq(count, i requires 0 <= i => from + i)
  }

  lemma {:induction false} RestoredRender(rest: string, previous: Option<char>, table: seq<string>, n: nat)
    requires var spans := Spans(Parts(rest, previous));
      |table| == n + |spans| && Table(spans) == table[n..]
    requires |table| <= USIZE_MAX
    ensures Restored(table, Render(Parts(rest, previous), n)) == rest
    ensures Met(|table|, Render(Parts(rest, previous), n)) == UpTo(n, |table| - n)
    decreases rest
  {
    hide Parts, Render, Spans, Written, ProtectedSpan, Restored, Met, PlaceholderAt, Placeholder, Table, UpTo;
    if rest == "" {
      Nothing(previous, n);
      RestoredNothing(table);
    } else {
      PartsStep(rest, previous);
      var span := ProtectedSpan(rest, previous);
      if span.Some? {
        var width := span.value.0;
        var hidden, parts := Preserved(rest[..width], span.value.1), Parts(rest[width..], Some(rest[width - 1]));
        PartStep(Hidden(hidden), parts, n);
        TableStep(hidden, Spans(parts), table, n);
        RestoredRender(rest[width..], Some(rest[width - 1]), table, n + 1);
        HiddenComesBack(hidden, parts, table, n, rest[width..]);
        assert rest == rest[..width] + rest[width..];
      } else {
        var parts := Parts(rest[1..], Some(rest[0]));
        PartStep(Copied(rest[0]), parts, n);
        RestoredRender(rest[1..], Some(rest[0]), table, n);
        CopiedComesBack(rest, parts, table, n);
      }
    }
  }

  /** A copied character is copied again in front of what the other parts come back as. */
  lemma CopiedComesBack(rest: string, parts: seq<Part>, table: seq<string>, n: nat)
    requires rest != "" && PlaceholderAt(rest).None? && parts == Parts(rest[1..], Some(rest[0]))
    requires Restored(table, Render(parts, n)) == rest[1..]
    ensures Restored(table, Render([Copied(rest[0])] + parts, n)) == rest
    ensures Met(|table|, Render([Copied(rest[0])] + parts, n)) == Met(|table|, Render(parts, n))
  {
    hide Parts, Render, Spans, Written, Restored, Met, PlaceholderAt;
    PartStep(Copied(rest[0]), parts, n);
    PartsWritten(rest[1..], Some(rest[0]));
    CopiedIsNoPlaceholder(rest, parts, n);
    CopyStep(table, rest[0], Render(parts, n));
    assert rest == [rest[0]] + rest[1..];
  }

  /** So does a hidden span come back. */
  lemma HiddenComesBack(hidden: Preserved, parts: seq<Part>, table: seq<string>, n: nat, behind: string)
    requires n < |table| <= USIZE_MAX && table[n] == hidden.text
    requires Restored(table, Render(parts, n + 1)) == behind
    requires Met(|table|, Render(parts, n + 1)) == UpTo(n + 1, |table| - n - 1)
    ensures Restored(table, Render([Hidden(hidden)] + parts, n)) == hidden.text + behind
    ensures Met(|table|, Render([Hidden(hidden)] + parts, n)) == UpTo(n, |table| - n)
  {
    hide Render, Spans, Written, Restored, Met, Placeholder;
    PartStep(Hidden(hidden), parts, n);
    PlaceholderStep(table, n, Render(parts, n + 1));
    assert UpTo(n, |table| - n) == [n] + UpTo(n + 1, |table| - n - 1);
  }

  lemma TableStep(first: Preserved, rest: seq<Preserved>, table: seq<string>, n: nat)
    requires n <= |table| && Table([first] + rest) == table[n..]
    ensures |table| == n + 1 + |rest| && table[n] == first.text && Table(rest) == table[n + 1..]
  {
    var spans := [first] + rest;
    assert table[n..][0] == Table(spans)[0] == first.text;
    forall i | 0 <= i < |rest| ensures Table(rest)[i] == table[n + 1..][i] {
      assert table[n..][i + 1] == Table(spans)[i + 1] == spans[i + 1].text;
    }
  }

  lemma CopyStep(table: seq<string>, c: char, rest: string)
    requires PlaceholderAt([c] + rest).None?
    ensures Restored(table, [c] + rest) == [c] + Restored(table, rest)
    ensures Met(|table|, [c] + rest) == Met(|table|, rest)
  {
    hide PlaceholderAt;
    OneStep(table, [c] + rest);
    assert ([c] + rest)[1..] == rest;
  }

  lemma PlaceholderStep(table: seq<string>, n: nat, rest: string)
    requires n < |table| && n <= USIZE_MAX
    ensures Restored(table, Placeholder(n) + rest) == table[n] + Restored(table, rest)
    ensures Met(|table|, Placeholder(n) + rest) == [n] + Met(|table|, rest)
  {
    PlaceholderReadsBack(n, rest);
    hide PlaceholderAt;
    var t := Placeholder(n) + rest;
    OneStep(table, t);
    assert t[|Placeholder(n)|..] == rest;
  }

  // ----- Masked

  /** Puts the spans back into a translation of the whole text, or gives the text up as it was. */
  function Unmask(m: Masked, translated: string): string {
    var table := Table(m.preserved);
    if forall i :: 0 <= i < |table| ==> i in Met(|table|, translated) then Restored(table, translated)
    else m.source
  }

  /** The same for one fragment: only the spans it names have to come back. */
  function UnmaskFragment(table: seq<string>, fragment: string, translated: string): string {
    if forall i :: i in Met(|table|, fragment) ==> i in Met(|table|, translated) then Restored(table, translated)
    else Restored(table, fragment)
  }

  method UnmaskFragmentText(table: seq<string>, fragment: string, translated: string) returns (r: string)
    ensures r == UnmaskFragment(table, fragment, translated)
  {
    hide Restored, Met;
    var english, needed := Substitute(table, fragment);
    var restored, seen := Substitute(table, translated);
    MetBelow(|table|, fragment);
    var kept := forall i :: 0 <= i < |needed| ==> (needed[i] ==> seen[i]);
    return if kept then restored else english;
  }

  lemma {:induction false} MetBelow(size: nat, text: string)
    ensures forall i :: i in Met(size, text) ==> i < size
    decreases text
  {
    if text != "" {
      MetBelow(size, text[Width(size, text)..]);
    }
  }

  /** A text that fits in memory: a Rust string is at most `isize::MAX` bytes long. */
  predicate Representable(text: string) { |text| <= USIZE_MAX / 2 }

  /** Masking is undone exactly, and the masked text names every span once and in order. */
  lemma MaskingIsUndone(text: string)
    requires Representable(text)
    ensures var m := Mask(text);
      && Unmask(m, m.masked) == text
      && Restored(Table(m.preserved), m.masked) == text
      && Met(|m.preserved|, m.masked) == UpTo(0, |m.preserved|)
  {
    hide Parts, Render, Spans, Restored, Met;
    var m := Mask(text);
    var table := Table(m.preserved);
    PartsWritten(text, None);
    assert table[0..] == table;
    RestoredRender(text, None, table, 0);
    forall i | 0 <= i < |table| ensures i in Met(|table|, m.masked) {
      assert UpTo(0, |table|)[i] == i;
    }
  }

  /** Whatever the engine answers, a fragment's spans are in what it is restored to. */
  lemma FragmentKeepsSpans(table: seq<string>, fragment: string, translated: string, i: nat)
    requires i in Met(|table|, fragment)
    ensures i < |table| && Contains(UnmaskFragment(table, fragment, translated), table[i])
  {
    hide Restored, Met, Contains;
    if i in Met(|table|, translated) {
      MetIsRestored(table, translated, i);
    }
    MetIsRestored(table, fragment, i);
  }

  /** And so they are in a whole text: it is restored if it names them all, and given up as it was otherwise. */
  lemma UnmaskKeepsSpans(text: string, translated: string, j: nat)
    requires Representable(text) && j < |Mask(text).preserved|
    ensures var m := Mask(text);
      && Contains(Unmask(m, translated), Table(m.preserved)[j])
      && Unmask(m, translated) in {Restored(Table(m.preserved), translated), text}
  {
    hide Restored, Met, Contains, Mask;
    var m := Mask(text);
    var table := Table(m.preserved);
    MaskSource(text);
    MaskingIsUndone(text);
    assert UpTo(0, |table|)[j] == j;
    MetIsRestored(table, m.masked, j);
    if forall i :: 0 <= i < |table| ==> i in Met(|table|, translated) { MetIsRestored(table, translated, j); }
  }

  lemma MaskSource(text: string)
    ensures Mask(text).source == text
  {
  }

  /** Every hidden span is a piece of the text, not empty, and has no white space at its ends. */
  lemma {:induction false} SpansTrimmed(rest: string, previous: Option<char>)
    ensures forall s :: s in Spans(Parts(rest, previous)) ==> s.text != "" && Trimmed(s.text)
  {
    hide ProtectedSpan;
    if rest != "" {
      PartsStep(rest, previous);
      var span := ProtectedSpan(rest, previous);
      if span.Some? {
        var n := span.value.0;
        SpansTrimmed(rest[n..], Some(rest[n - 1]));
        SpanIsTrimmed(rest, previous);
        PartStep(Hidden(Preserved(rest[..n], span.value.1)), Parts(rest[n..], Some(rest[n - 1])), 0);
      } else {
        SpansTrimmed(rest[1..], Some(rest[0]));
        PartStep(Copied(rest[0]), Parts(rest[1..], Some(rest[0])), 0);
      }
    }
  }

  // ----- a text that is restored again

  /** No placeholder begins with `span` and goes on, nor does `span` begin with one and go on. */
  ghost predicate NoName(span: string) {
    forall name :: PlaceholderAt(name).Some? ==> SameOrApart(NameAt(name), span)
  }

  ghost predicate NoNames(table: seq<string>) {
    forall i :: 0 <= i < |table| ==> NoName(table[i])
  }

  lemma {:induction false} SpansAreNoNames(rest: string, previous: Option<char>)
    ensures forall s :: s in Spans(Parts(rest, previous)) ==> NoName(s.text)
  {
    hide ProtectedSpan, NoName, Parts, Spans, Written, Render, PlaceholderAt;
    if rest == "" {
      Nothing(previous, 0);
    } else {
      PartsStep(rest, previous);
      var span := ProtectedSpan(rest, previous);
      if span.Some? {
        var n := span.value.0;
        SpansAreNoNames(rest[n..], Some(rest[n - 1]));
        SpanIsNoName(rest, previous);
        PartStep(Hidden(Preserved(rest[..n], span.value.1)), Parts(rest[n..], Some(rest[n - 1])), 0);
      } else {
        SpansAreNoNames(rest[1..], Some(rest[0]));
        PartStep(Copied(rest[0]), Parts(rest[1..], Some(rest[0])), 0);
      }
    }
  }

  lemma SpanIsNoName(rest: string, previous: Option<char>)
    requires ProtectedSpan(rest, previous).Some?
    ensures NoName(rest[..ProtectedSpan(rest, previous).value.0])
  {
    hide ProtectedSpan, PlaceholderAt, SameOrApart;
    forall name | PlaceholderAt(name).Some?
      ensures SameOrApart(NameAt(name), rest[..ProtectedSpan(rest, previous).value.0])
    {
      SpanOrName(rest, previous, name);
    }
  }

  lemma TableOfNoNames(text: string)
    ensures NoNames(Table(Mask(text).preserved))
  {
    SpansAreNoNames(text, None);
    hide Parts, Render, Spans, NoName;
    var spans := Mask(text).preserved;
    forall i | 0 <= i < |spans| ensures NoName(Table(spans)[i]) { assert spans[i] in spans; }
  }

  /** Each placeholder one pass over `text` meets stands for itself. */
  predicate SelfNamed(table: seq<string>, text: string) {
    text != "" ==>
      && (Named(|table|, text).Some? ==> table[Named(|table|, text).value] == NameAt(text))
      && SelfNamed(table, text[Width(|table|, text)..])
  }

  lemma SelfNamedStep(table: seq<string>, text: string)
    requires text != ""
    ensures SelfNamed(table, text) <==>
      Front(table, text) == text[..Width(|table|, text)] && SelfNamed(table, text[Width(|table|, text)..])
  {
    hide PlaceholderAt;
    assert text[..1] == [text[0]];
  }

  lemma FrontApart(table: seq<string>, text: string)
    requires NoNames(table) && text != ""
    ensures SameOrApart(Front(table, text), text[..Width(|table|, text)])
  {
    hide PlaceholderAt;
    assert text[..1] == [text[0]];
    if Named(|table|, text).Some? {
      assert NoName(table[Named(|table|, text).value]);
      assert SameOrApart(NameAt(text), table[Named(|table|, text).value]);
    }
  }

  /** Restoring leaves a text alone exactly when each placeholder in it stands for itself; otherwise it
    * comes out different at a place both have. */
  lemma {:induction false} RestoredSame(table: seq<string>, text: string)
    requires NoNames(table)
    ensures Restored(table, text) == text <==> SelfNamed(table, text)
    ensures SameOrApart(Restored(table, text), text)
    decreases text
  {
    if text == "" {
      RestoredNothing(table);
    } else {
      hide Restored, Met, Front, NoNames, SelfNamed, SameOrApart, Width;
      var n := Width(|table|, text);
      OneStep(table, text);
      SelfNamedStep(table, text);
      FrontApart(table, text);
      RestoredSame(table, text[n..]);
      ApartBehind(Front(table, text), Restored(table, text[n..]), text[..n], text[n..]);
      assert text == text[..n] + text[n..];
    }
  }

  /** Nothing named, nothing changed. */
  lemma {:induction false} NothingNamed(table: seq<string>, text: string)
    requires Met(|table|, text) == []
    ensures SelfNamed(table, text)
    decreases text
  {
    if text != "" {
      hide Restored, Met, PlaceholderAt, NameAt;
      OneStep(table, text);
      NothingNamed(table, text[Width(|table|, text)..]);
    }
  }

  /** A fragment whose own English, handed in as its translation, is taken for that English: it does not
    * name all of the fragment's spans, or each placeholder in it stands for itself. */
  predicate ComesBack(table: seq<string>, fragment: string) {
    var english := Restored(table, fragment);
    (forall i :: i in Met(|table|, fragment) ==> i in Met(|table|, english)) ==> SelfNamed(table, english)
  }

  /** Whatever is masked, a fragment's own English comes back unchanged exactly then, and otherwise comes back
    * different at a place both have. */
  lemma EnglishFedBack(text: string, fragment: string)
    ensures var table := Table(Mask(text).preserved);
      var english := Restored(table, fragment);
      && (Restored(table, english) == english <==> SelfNamed(table, english))
      && (UnmaskFragment(table, fragment, english) == english <==> ComesBack(table, fragment))
      && SameOrApart(UnmaskFragment(table, fragment, english), english)
  {
    hide Restored, Met, SelfNamed, NoNames, Mask;
    TableOfNoNames(text);
    var table := Table(Mask(text).preserved);
    RestoredSame(table, Restored(table, fragment));
  }
}
