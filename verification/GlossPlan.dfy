/** A comment prepared for the engine and put back: the pipeline from end to end. */
module GlossPlan {
  import opened CommentRules
  import opened DocBlock
  import opened Masking
  import opened Rebuild
  import opened Sentence
  import opened Text
  import UnitPlan

  datatype Plan = Plan(pieces: seq<Piece>, units: seq<UnitPlan.Unit>)

  function Prepared(u: Alphabet, texts: seq<string>): (r: seq<UnitPlan.Unit>)
    ensures |r| == |texts| && forall i :: 0 <= i < |r| ==> r[i] == UnitPlan.Prepare(u, texts[i])
  {
    seq(|texts|, i requires 0 <= i < |texts| => UnitPlan.Prepare(u, texts[i]))
  }

  ghost function PlanFor(u: Alphabet, raw: string, rules: Rules): Plan {
    Plan(ShapeOf(raw, rules), Prepared(u, Units(ShapeOf(raw, rules))))
  }

  method NewPlan(u: Alphabet, raw: string, rules: Rules) returns (plan: Plan)
    ensures plan == PlanFor(u, raw, rules)
  {
    hide ShapeOf, Masking.Mask, Split;
    var pieces := Parse(raw, rules);
    var texts := Units(pieces);
    var units: seq<UnitPlan.Unit> := [];
    for i := 0 to |texts|
      invariant |units| == i && forall k :: 0 <= k < i ==> units[k] == UnitPlan.Prepare(u, texts[k])
    {
      var masked := MaskText(texts[i]);
      var sentences := SplitSentences(u, masked.masked);
      units := units + [UnitPlan.Unit(masked, sentences)];
    }
    plan := Plan(pieces, units);
  }

  /** The sentences of every unit, unit after unit. */
  function Sentences(units: seq<UnitPlan.Unit>): seq<string> {
    if units == [] then [] else Sentences(units[..|units| - 1]) + units[|units| - 1].sentences
  }

  /** The sentences in the form that is sent. */
  function Segments(plan: Plan): seq<string> { UnitPlan.Echoed(Sentences(plan.units)) }

  /** Each unit restored from its own share of the translations. */
  function TextsFrom(units: seq<UnitPlan.Unit>, translations: seq<string>): (r: seq<string>)
    requires |translations| == |Sentences(units)|
    ensures |r| == |units|
  {
    if units == [] then []
    else
      var k := |units| - 1;
      var n := |Sentences(units[..k])|;
      TextsFrom(units[..k], translations[..n]) + [UnitPlan.RestoreUnit(units[k], translations[n..])]
  }

  /** The texts the units come back as; a batch of the wrong length leaves them as they were. */
  function TextsOf(plan: Plan, translations: seq<string>): seq<string> {
    if |translations| != |Sentences(plan.units)| then Units(plan.pieces) else TextsFrom(plan.units, translations)
  }

  function RestoreGloss(plan: Plan, translations: seq<string>): string {
    if |translations| != |Sentences(plan.units)| then Source(plan.pieces)
    else RebuildText(plan.pieces, TextsFrom(plan.units, translations))
  }

  method Restore(plan: Plan, translations: seq<string>) returns (gloss: string)
    ensures gloss == RestoreGloss(plan, translations)
  {
    hide UnitPlan.RestoreUnit, RebuildText;
    if |translations| != |Segments(plan)| {
      gloss := RebuildComment(plan.pieces, []);
      return;
    }
    var units, restored := plan.units, [];
    var next := 0;
    for i := 0 to |units|
      invariant next == |Sentences(units[..i])| <= |translations|
      invariant restored == TextsFrom(units[..i], translations[..next])
    {
      UnitsStep(units, i);
      var n := |units[i].sentences|;
      var mine := translations[next..next + n];
      var text := UnitPlan.RestoreUnitText(units[i], mine);
      TextsStep(units, translations, i);
      restored := restored + [text];
      next := next + n;
    }
    assert units[..|units|] == units && translations[..next] == translations;
    gloss := RebuildComment(plan.pieces, restored);
  }

  lemma UnitsStep(units: seq<UnitPlan.Unit>, i: nat)
    requires i < |units|
    ensures Sentences(units[..i + 1]) == Sentences(units[..i]) + units[i].sentences
    ensures |Sentences(units[..i + 1])| <= |Sentences(units)|
    decreases |units| - i
  {
    assert units[..i + 1][..i] == units[..i];
    if i + 1 < |units| {
      UnitsStep(units, i + 1);
    } else {
      assert units[..i + 1] == units;
    }
  }

  lemma TextsStep(units: seq<UnitPlan.Unit>, translations: seq<string>, i: nat)
    requires i < |units| && |translations| == |Sentences(units)|
    ensures var n, m := |Sentences(units[..i])|, |Sentences(units[..i + 1])|;
      && n + |units[i].sentences| == m <= |translations|
      && TextsFrom(units[..i + 1], translations[..m])
         == TextsFrom(units[..i], translations[..n]) + [UnitPlan.RestoreUnit(units[i], translations[n..m])]
  {
    hide UnitPlan.RestoreUnit;
    UnitsStep(units, i);
    var n, m := |Sentences(units[..i])|, |Sentences(units[..i + 1])|;
    assert units[..i + 1][..i] == units[..i];
    assert translations[..m][..n] == translations[..n] && translations[..m][n..] == translations[n..m];
  }

  /** Where unit `i`'s share of the translations begins and ends. */
  function Share(units: seq<UnitPlan.Unit>, i: nat): (r: (nat, nat))
    requires i < |units|
  {
    (|Sentences(units[..i])|, |Sentences(units[..i])| + |units[i].sentences|)
  }

  lemma {:induction false} TextsAt(units: seq<UnitPlan.Unit>, translations: seq<string>, i: nat)
    requires i < |units| && |translations| == |Sentences(units)|
    ensures var (n, m) := Share(units, i);
      && m <= |translations|
      && Sentences(units)[n..m] == units[i].sentences
      && TextsFrom(units, translations)[i] == UnitPlan.RestoreUnit(units[i], translations[n..m])
    decreases |units|
  {
    hide UnitPlan.RestoreUnit;
    var k := |units| - 1;
    var cut := |Sentences(units[..k])|;
    if i < k {
      TextsAt(units[..k], translations[..cut], i);
      assert units[..k][..i] == units[..i];
      var (n, m) := Share(units, i);
      assert Sentences(units)[n..m] == Sentences(units[..k])[n..m];
      assert translations[..cut][n..m] == translations[n..m];
    } else {
      assert translations[cut..|translations|] == translations[cut..];
    }
  }

  // ----- printed lines, compared

  lemma JoinLast(lines: seq<string>)
    requires |lines| > 1
    ensures var k := |lines| - 1; JoinLines(lines) == JoinLines(lines[..k]) + "\n" + lines[k]
  {
  }

  lemma {:induction false} JoinApart(a: seq<string>, b: seq<string>)
    requires |a| == |b| && forall i :: 0 <= i < |a| ==> SameOrApart(a[i], b[i])
    ensures SameOrApart(JoinLines(a), JoinLines(b))
    ensures JoinLines(a) == JoinLines(b) <==> a == b
  {
    if |a| > 1 {
      var k := |a| - 1;
      JoinLast(a);
      JoinLast(b);
      var x, y := JoinLines(a[..k]), JoinLines(b[..k]);
      JoinApart(a[..k], b[..k]);
      hide JoinLines, SameOrApart;
      LineApart(a[k], b[k]);
      ApartBehind(x, "\n" + a[k], y, "\n" + b[k]);
      assert x + "\n" + a[k] == x + ("\n" + a[k]) && y + "\n" + b[k] == y + ("\n" + b[k]);
      assert a == a[..k] + [a[k]] && b == b[..k] + [b[k]];
    }
  }

  lemma LineApart(a: string, b: string)
    requires SameOrApart(a, b)
    ensures SameOrApart("\n" + a, "\n" + b) && ("\n" + a == "\n" + b <==> a == b)
  {
    ApartBehind("\n", a, "\n", b);
  }

  /** What is printed of `lines`: `lines[from..to]`, bare of empty lines at both ends. */
  ghost predicate Frame(lines: seq<string>, from: nat, to: nat) {
    && from <= to <= |lines|
    && (forall i :: 0 <= i < from || to <= i < |lines| ==> lines[i] == "")
    && (from < to ==> lines[from] != "" && lines[to - 1] != "")
  }

  lemma {:induction false} DropFrontIs(lines: seq<string>) returns (from: nat)
    ensures from <= |lines| && DropFront(lines) == lines[from..]
    ensures forall i :: 0 <= i < from ==> lines[i] == ""
    ensures from < |lines| ==> lines[from] != ""
  {
    if lines != [] && lines[0] == "" {
      var f := DropFrontIs(lines[1..]);
      from := f + 1;
      assert lines[1..][f..] == lines[from..];
      assert forall i :: 0 < i < |lines| ==> lines[i] == lines[1..][i - 1];
    } else {
      from := 0;
    }
  }

  lemma {:induction false} DropBackIs(lines: seq<string>) returns (to: nat)
    ensures to <= |lines| && DropBack(lines) == lines[..to]
    ensures forall i :: to <= i < |lines| ==> lines[i] == ""
    ensures to > 0 ==> lines[to - 1] != ""
  {
    if lines != [] && lines[|lines| - 1] == "" {
      to := DropBackIs(lines[..|lines| - 1]);
      assert lines[..|lines| - 1][..to] == lines[..to];
    } else {
      to := |lines|;
    }
  }

  lemma FrameOf(lines: seq<string>) returns (from: nat, to: nat)
    ensures Frame(lines, from, to) && DropBack(DropFront(lines)) == lines[from..to]
  {
    hide DropFront, DropBack;
    from := DropFrontIs(lines);
    var rest := lines[from..];
    var n := DropBackIs(rest);
    to := from + n;
    assert forall i :: from <= i < |lines| ==> lines[i] == rest[i - from];
    assert rest[..n] == lines[from..to];
  }

  /** Lists with the same empty lines are printed over the same range. */
  lemma SameFrame(a: seq<string>, b: seq<string>, from: nat, to: nat, from': nat, to': nat)
    requires |a| == |b| && forall i :: 0 <= i < |a| ==> (a[i] == "" <==> b[i] == "")
    requires Frame(a, from, to) && Frame(b, from', to')
    ensures (from < to <==> from' < to') && (from < to ==> from == from' && to == to')
  {
  }

  lemma {:induction false} UnitCountBelow(pieces: seq<Piece>, i: nat)
    requires i <= |pieces|
    ensures UnitCount(pieces[..i]) <= UnitCount(pieces)
    ensures i < |pieces| && pieces[i].Unit? ==>
      UnitCount(pieces[..i]) < UnitCount(pieces) && Units(pieces)[UnitCount(pieces[..i])] == pieces[i].text
    decreases |pieces|
  {
    if i < |pieces| {
      var k := |pieces| - 1;
      if i < k {
        UnitCountBelow(pieces[..k], i);
        assert pieces[..k][..i] == pieces[..i];
      }
    } else {
      assert pieces[..i] == pieces;
    }
  }

  /** Every unit is the text of some piece. */
  lemma {:induction false} UnitPlace(pieces: seq<Piece>, unit: nat) returns (i: nat)
    requires unit < UnitCount(pieces)
    ensures i < |pieces| && pieces[i].Unit? && UnitCount(pieces[..i]) == unit && Units(pieces)[unit] == pieces[i].text
  {
    var k := |pieces| - 1;
    if unit < UnitCount(pieces[..k]) {
      i := UnitPlace(pieces[..k], unit);
      assert pieces[..k][..i] == pieces[..i];
    } else {
      i := k;
    }
  }

  /** Line `i` printed around `texts` and around `others`. */
  lemma TwoLines(pieces: seq<Piece>, texts: seq<string>, others: seq<string>, i: nat)
    requires |texts| == |others| == UnitCount(pieces) && i < |pieces|
    requires forall k :: 0 <= k < |texts| ==> texts[k] != "" && others[k] != "" && SameOrApart(texts[k], others[k])
    ensures var x, y := RenderedAll(pieces, texts)[i], RenderedAll(pieces, others)[i];
      && SameOrApart(x, y) && (x == "" <==> y == "")
      && (!pieces[i].Unit? ==> x == y)
    ensures pieces[i].Unit? ==>
      var k := UnitCount(pieces[..i]);
      k < |texts| && (RenderedAll(pieces, texts)[i] == RenderedAll(pieces, others)[i] <==> texts[k] == others[k])
  {
    hide UnitCount, Units, SameOrApart;
    UnitCountBelow(pieces, i);
    if pieces[i].Unit? {
      var k := UnitCount(pieces[..i]);
      SameIsSame(pieces[i].lead);
      ApartBehind(pieces[i].lead, texts[k], pieces[i].lead, others[k]);
    } else {
      SameIsSame(RenderedAll(pieces, texts)[i]);
    }
  }

  lemma SameIsSame(s: string)
    ensures SameOrApart(s, s)
  {
  }

  /** A comment rebuilt around texts that are pairwise the same or apart is the same exactly when they are. */
  lemma RebuildEqual(pieces: seq<Piece>, texts: seq<string>, others: seq<string>)
    requires |texts| == |others| == UnitCount(pieces)
    requires forall k :: 0 <= k < |texts| ==> texts[k] != "" && others[k] != "" && SameOrApart(texts[k], others[k])
    ensures RebuildText(pieces, texts) == RebuildText(pieces, others) <==> texts == others
  {
    hide JoinLines, DropFront, DropBack, UnitCount, Units, Rendered, SameOrApart;
    var a, b := RenderedAll(pieces, texts), RenderedAll(pieces, others);
    forall i | 0 <= i < |pieces| ensures SameOrApart(a[i], b[i]) && (a[i] == "" <==> b[i] == "") {
      TwoLines(pieces, texts, others, i);
    }
    if RebuildText(pieces, texts) == RebuildText(pieces, others) {
      SameLines(a, b);
      forall unit | 0 <= unit < |texts| ensures texts[unit] == others[unit] {
        var i := UnitPlace(pieces, unit);
        TwoLines(pieces, texts, others, i);
      }
    }
  }

  /** Lists with the same empty lines, each line the same or apart, are the same where they print the same. */
  lemma SameLines(a: seq<string>, b: seq<string>)
    requires |a| == |b| && forall i :: 0 <= i < |a| ==> SameOrApart(a[i], b[i]) && (a[i] == "" <==> b[i] == "")
    requires JoinLines(DropBack(DropFront(a))) == JoinLines(DropBack(DropFront(b)))
    ensures a == b
  {
    hide JoinLines, DropFront, DropBack, SameOrApart;
    var from, to := FrameOf(a);
    var from', to' := FrameOf(b);
    SameFrame(a, b, from, to, from', to');
    var a', b' := a[from..to], b[from'..to'];
    JoinApart(a', b');
    forall i | 0 <= i < |a| ensures a[i] == b[i] {
      if from <= i < to { assert a'[i - from] == b'[i - from]; }
    }
  }

  /** Units printed as they are. */
  lemma RebuiltAsIs(pieces: seq<Piece>)
    ensures RebuildText(pieces, Units(pieces)) == Source(pieces)
  {
    hide Units, UnitCount, DropFront, DropBack, JoinLines;
    forall i | 0 <= i < |pieces| ensures RenderedAll(pieces, Units(pieces))[i] == RenderedAll(pieces, [])[i] {
      UnitCountBelow(pieces, i);
    }
    assert RenderedAll(pieces, Units(pieces)) == RenderedAll(pieces, []);
  }
}
