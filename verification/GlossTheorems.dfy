/** What the pipeline promises of a comment: an engine that changes nothing gives the comment back,
  * and an engine that answers anything at all cannot lose what was protected. */
module GlossTheorems {
  import opened CommentRules
  import opened DocBlock
  import opened DocTheorems
  import opened GlossPlan
  import opened Masking
  import opened Preserve
  import opened Rebuild
  import opened Sentence
  import opened Text
  import UnitPlan

  // ----- the round trip

  /** What is handed in for the segments: the sentences as they were cut, what an echoing engine makes of
    * them, or their English. */
  datatype Fed = AsCut | AsEchoed | AsEnglish

  /** Every unit's sentences with their own spans put back, unit after unit. */
  function Sources(units: seq<UnitPlan.Unit>): (r: seq<string>)
    ensures |r| == |Sentences(units)|
  {
    if units == [] then []
    else
      var unit := units[|units| - 1];
      Sources(units[..|units| - 1]) + UnitPlan.English(Table(unit.masked.preserved), unit.sentences)
  }

  function Answers(units: seq<UnitPlan.Unit>, fed: Fed): (r: seq<string>)
    ensures |r| == |Sentences(units)|
  {
    match fed
    case AsCut => Sentences(units)
    case AsEchoed => UnitPlan.Echoed(Sentences(units))
    case AsEnglish => Sources(units)
  }

  /** One unit's share of that. */
  function UnitAnswers(unit: UnitPlan.Unit, fed: Fed): (r: seq<string>)
    ensures |r| == |unit.sentences|
  {
    match fed
    case AsCut => unit.sentences
    case AsEchoed => UnitPlan.Echoed(unit.sentences)
    case AsEnglish => UnitPlan.English(Table(unit.masked.preserved), unit.sentences)
  }

  /** Each sentence comes out of that as it is in the comment: an engine that saw it saw no comma at its
    * end, and its English is not taken for something that names spans. */
  ghost predicate Kept(unit: UnitPlan.Unit, fed: Fed) {
    match fed
    case AsCut => true
    case AsEchoed => forall s :: s in unit.sentences ==> !UnitPlan.EndsInComma(s)
    case AsEnglish => forall s :: s in unit.sentences ==> ComesBack(Table(unit.masked.preserved), s)
  }

  /** What comes out of it, sentence by sentence. */
  lemma FedFits(text: string, sentences: seq<string>, gaps: seq<string>, fed: Fed)
    requires WellCut(sentences, gaps)
    ensures var unit := UnitPlan.Unit(Mask(text), sentences);
      var table := Table(unit.masked.preserved);
      var back := UnitPlan.Unmasked(table, sentences, UnitAnswers(unit, fed));
      && UnitPlan.Fits(back, UnitPlan.English(table, sentences))
      && (back == UnitPlan.English(table, sentences) <==> Kept(unit, fed))
  {
    hide Masking.Mask, WellCut, UnitPlan.SolidTable, UnitPlan.EndsInComma, UnmaskFragment, EngineForm, UnitPlan.Fits, Restored, ComesBack;
    var table := Table(Mask(text).preserved);
    UnitPlan.MaskTable(text);
    match fed
    case AsCut =>
      UnitPlan.EnglishFits(table, sentences, gaps);
      UnitPlan.UnmaskedSame(table, sentences);
    case AsEchoed => UnitPlan.EchoFits(table, sentences, gaps);
    case AsEnglish => UnitPlan.EnglishBackFits(text, sentences, gaps);
  }

  lemma UnitBack(u: Alphabet, text: string, fed: Fed)
    requires Solid(text) && Representable(text)
    ensures var unit := UnitPlan.Prepare(u, text);
      var r := UnitPlan.RestoreUnit(unit, UnitAnswers(unit, fed));
      && r != "" && SameOrApart(r, text)
      && (r == text <==> SingleSpaced(UnitPlan.GapsOf(u, text)) && Kept(unit, fed))
  {
    hide Split, Masking.Mask, UnitPlan.GapsOf, SingleSpaced, WellCut, Join, Weave, UnitPlan.Fits, Solid, Restored,
      UnitPlan.MetAll, Kept, UnitAnswers, SameOrApart, UnmaskFragment;
    var unit := UnitPlan.Prepare(u, text);
    UnitPlan.UnitWeaves(u, text);
    FedFits(text, unit.sentences, UnitPlan.GapsOf(u, text), fed);
    UnitPlan.JoinedIs(u, text, UnitPlan.Unmasked(Table(unit.masked.preserved), unit.sentences, UnitAnswers(unit, fed)));
  }

  /** However its sentences were spaced, a unit comes out of it as if they had not been touched exactly
    * when none was. */
  lemma UnitUntouched(u: Alphabet, text: string, fed: Fed)
    requires Solid(text) && Representable(text)
    ensures var unit := UnitPlan.Prepare(u, text);
      var r, cut := UnitPlan.RestoreUnit(unit, UnitAnswers(unit, fed)), UnitPlan.RestoreUnit(unit, unit.sentences);
      && r != "" && cut != "" && SameOrApart(r, cut)
      && (r == cut <==> Kept(unit, fed))
  {
    hide Split, Masking.Mask, UnitPlan.GapsOf, SingleSpaced, WellCut, Join, Weave, UnitPlan.Fits, Solid, Restored,
      UnitPlan.MetAll, SameOrApart, UnmaskFragment, UnitPlan.EndsInComma, ComesBack, UnitAnswers;
    var unit := UnitPlan.Prepare(u, text);
    var table, gaps := Table(unit.masked.preserved), UnitPlan.GapsOf(u, text);
    UnitPlan.UnitWeaves(u, text);
    FedFits(text, unit.sentences, gaps, fed);
    UnitPlan.MaskTable(text);
    UnitPlan.EnglishFits(table, unit.sentences, gaps);
    UnitPlan.UnmaskedSame(table, unit.sentences);
    CutIntoSome(unit.sentences, gaps);
    var english := UnitPlan.English(table, unit.sentences);
    UnitPlan.JoinedAlike(UnitPlan.Unmasked(table, unit.sentences, UnitAnswers(unit, fed)), english);
    UnitPlan.JoinedAlike(english, english);
  }

  lemma CutIntoSome(pieces: seq<string>, gaps: seq<string>)
    requires WellCut(pieces, gaps)
    ensures pieces != []
  {
  }

  /** Every unit fits in memory. */
  predicate AllRepresentable(texts: seq<string>) {
    forall i :: 0 <= i < |texts| ==> Representable(texts[i])
  }

  lemma {:induction false} UnitsFit(pieces: seq<Piece>)
    requires FitPieces(pieces)
    ensures forall i :: 0 <= i < UnitCount(pieces) ==> Solid(Units(pieces)[i])
  {
    hide IsWhitespace, UnitCount, Units, FitPieces, Solid;
    forall i | 0 <= i < UnitCount(pieces) ensures Solid(Units(pieces)[i]) {
      var k := UnitPlace(pieces, i);
      PieceFits(pieces, k);
    }
  }

  lemma PieceFits(pieces: seq<Piece>, k: nat)
    requires FitPieces(pieces) && k < |pieces| && pieces[k].Unit?
    ensures Solid(pieces[k].text)
  {
    hide IsWhitespace;
    assert pieces[k] in pieces;
  }

  /** What is fed to a comment's plan gives its source exactly when each of its units comes back. */
  lemma BackExactly(u: Alphabet, raw: string, rules: Rules, fed: Fed)
    requires AllRepresentable(Units(ShapeOf(raw, rules)))
    ensures var plan := PlanFor(u, raw, rules);
      RestoreGloss(plan, Answers(plan.units, fed)) == Source(plan.pieces)
      <==> AllSpaced(u, Units(plan.pieces)) && AllKept(u, Units(plan.pieces), fed)
  {
    hide ShapeOf, UnitPlan.Prepare, UnitPlan.RestoreUnit, RebuildText, Kept, Solid, Representable, Sentences, SingleSpaced,
      UnitPlan.GapsOf, TextsFrom, FitPieces, UnitCount, Units, Answers, UnitAnswers, SameOrApart;
    ShapeFits(raw, rules);
    var plan := PlanFor(u, raw, rules);
    UnitsFit(plan.pieces);
    var texts := Units(plan.pieces);
    var back := TextsFrom(plan.units, Answers(plan.units, fed));
    forall i | 0 <= i < |texts|
      ensures back[i] != "" && texts[i] != "" && SameOrApart(back[i], texts[i])
      ensures back[i] == texts[i] <==>
        SingleSpaced(UnitPlan.GapsOf(u, texts[i])) && Kept(UnitPlan.Prepare(u, texts[i]), fed)
    {
      UnitBack(u, texts[i], fed);
      AnswersAt(plan.units, fed, i);
      SolidIsNotEmpty(texts[i]);
    }
    RebuildEqual(plan.pieces, back, texts);
    RebuiltAsIs(plan.pieces);
    assert back == texts <==> forall i :: 0 <= i < |texts| ==> back[i] == texts[i];
  }

  /** And it gives what the untouched sentences give exactly when no sentence of any unit is touched. */
  lemma UntouchedExactly(u: Alphabet, raw: string, rules: Rules, fed: Fed)
    requires AllRepresentable(Units(ShapeOf(raw, rules)))
    ensures var plan := PlanFor(u, raw, rules);
      RestoreGloss(plan, Answers(plan.units, fed)) == RestoreGloss(plan, Sentences(plan.units))
      <==> AllKept(u, Units(plan.pieces), fed)
  {
    hide ShapeOf, UnitPlan.Prepare, UnitPlan.RestoreUnit, RebuildText, Kept, Solid, Representable, Sentences,
      TextsFrom, FitPieces, UnitCount, Units, Answers, UnitAnswers, SameOrApart;
    ShapeFits(raw, rules);
    var plan := PlanFor(u, raw, rules);
    UnitsFit(plan.pieces);
    var texts := Units(plan.pieces);
    var back, cut := TextsFrom(plan.units, Answers(plan.units, fed)), TextsFrom(plan.units, Sentences(plan.units));
    forall i | 0 <= i < |texts|
      ensures back[i] != "" && cut[i] != "" && SameOrApart(back[i], cut[i])
      ensures back[i] == cut[i] <==> Kept(UnitPlan.Prepare(u, texts[i]), fed)
    {
      UnitUntouched(u, texts[i], fed);
      AnswersAt(plan.units, fed, i);
      TextsAt(plan.units, Sentences(plan.units), i);
    }
    RebuildEqual(plan.pieces, back, cut);
    assert back == cut <==> forall i :: 0 <= i < |texts| ==> back[i] == cut[i];
  }

  lemma SolidIsNotEmpty(s: string)
    requires Solid(s)
    ensures s != ""
  {
  }

  lemma AnswersAt(units: seq<UnitPlan.Unit>, fed: Fed, i: nat)
    requires i < |units|
    ensures TextsFrom(units, Answers(units, fed))[i] == UnitPlan.RestoreUnit(units[i], UnitAnswers(units[i], fed))
  {
    hide UnitPlan.RestoreUnit, Sentences, TextsFrom, EngineForm, Sources, UnitPlan.English;
    var all := Answers(units, fed);
    TextsAt(units, all, i);
    SourcesAt(units, i);
    var (n, m) := Share(units, i);
    assert all[n..m] == UnitAnswers(units[i], fed);
  }

  lemma SourcesLast(units: seq<UnitPlan.Unit>)
    requires units != []
    ensures var unit := units[|units| - 1];
      Sources(units) == Sources(units[..|units| - 1]) + UnitPlan.English(Table(unit.masked.preserved), unit.sentences)
  {
  }

  lemma {:induction false} SourcesAt(units: seq<UnitPlan.Unit>, i: nat)
    requires i < |units|
    ensures var (n, m) := Share(units, i);
      && m <= |Sources(units)|
      && Sources(units)[n..m] == UnitPlan.English(Table(units[i].masked.preserved), units[i].sentences)
    decreases |units|
  {
    hide Restored, Sources, Sentences, Table;
    var k := |units| - 1;
    SourcesLast(units);
    var (n, m) := Share(units, i);
    var before := Sources(units[..k]);
    if i < k {
      SourcesAt(units[..k], i);
      assert units[..k][..i] == units[..i];
      assert Sources(units)[n..m] == before[n..m];
    } else {
      assert n == |before|;
    }
  }

  /** Single spaces stand between the sentences of every unit. */
  ghost predicate AllSpaced(u: Alphabet, texts: seq<string>) {
    forall i :: 0 <= i < |texts| ==> SingleSpaced(UnitPlan.GapsOf(u, texts[i]))
  }

  ghost predicate AllKept(u: Alphabet, texts: seq<string>, fed: Fed) {
    forall i :: 0 <= i < |texts| ==> Kept(UnitPlan.Prepare(u, texts[i]), fed)
  }

  /** No sentence ends in a comma. */
  ghost predicate NoCommas(u: Alphabet, texts: seq<string>) {
    forall i, s :: 0 <= i < |texts| && s in UnitPlan.Prepare(u, texts[i]).sentences ==> !UnitPlan.EndsInComma(s)
  }

  /** No sentence's English names all its spans by placeholders that stand for anything but themselves. */
  ghost predicate AllComeBack(u: Alphabet, texts: seq<string>) {
    forall i, s :: 0 <= i < |texts| && s in UnitPlan.Prepare(u, texts[i]).sentences ==> ComesBack(Protected(texts[i]), s)
  }

  lemma KeptIs(u: Alphabet, texts: seq<string>)
    ensures AllKept(u, texts, AsCut)
    ensures AllKept(u, texts, AsEchoed) <==> NoCommas(u, texts)
    ensures AllKept(u, texts, AsEnglish) <==> AllComeBack(u, texts)
  {
    hide Split, Masking.Mask, UnitPlan.EndsInComma, ComesBack;
  }

  /** The round trip: a comment's own sentences give back its source exactly when single spaces stand
    * between the sentences of each unit; an engine that echoes what it is sent gives it back exactly
    * when, besides, no sentence ends in a comma. */
  lemma RoundTrip(u: Alphabet, raw: string, rules: Rules)
    requires AllRepresentable(Units(ShapeOf(raw, rules)))
    ensures var plan := PlanFor(u, raw, rules);
      RestoreGloss(plan, Sentences(plan.units)) == Source(plan.pieces) <==> AllSpaced(u, Units(plan.pieces))
    ensures var plan := PlanFor(u, raw, rules);
      RestoreGloss(plan, Segments(plan)) == Source(plan.pieces) <==>
        AllSpaced(u, Units(plan.pieces)) && NoCommas(u, Units(plan.pieces))
  {
    hide ShapeOf, UnitPlan.Prepare, RestoreGloss, Source, Units, Sentences, AllSpaced, NoCommas, AllKept, Representable;
    BackExactly(u, raw, rules, AsCut);
    BackExactly(u, raw, rules, AsEchoed);
    KeptIs(u, Units(ShapeOf(raw, rules)));
  }

  /** The English of each segment gives back the source exactly when single spaces stand between the
    * sentences of each unit and no sentence's English is read as naming spans. */
  lemma SourcesRestored(u: Alphabet, raw: string, rules: Rules)
    requires AllRepresentable(Units(ShapeOf(raw, rules)))
    ensures var plan := PlanFor(u, raw, rules);
      RestoreGloss(plan, Sources(plan.units)) == Source(plan.pieces) <==>
        AllSpaced(u, Units(plan.pieces)) && AllComeBack(u, Units(plan.pieces))
  {
    hide ShapeOf, UnitPlan.Prepare, RestoreGloss, Source, Units, Sources, AllSpaced, AllComeBack, AllKept, Representable;
    BackExactly(u, raw, rules, AsEnglish);
    KeptIs(u, Units(ShapeOf(raw, rules)));
  }

  /** What a segment falls back to may be handed in as its translation exactly when no sentence's English
    * names all its spans by placeholders that stand for anything but themselves. */
  lemma SourcesFedBack(u: Alphabet, raw: string, rules: Rules)
    requires AllRepresentable(Units(ShapeOf(raw, rules)))
    ensures var plan := PlanFor(u, raw, rules);
      RestoreGloss(plan, Sources(plan.units)) == RestoreGloss(plan, Sentences(plan.units)) <==>
        AllComeBack(u, Units(plan.pieces))
  {
    hide ShapeOf, UnitPlan.Prepare, RestoreGloss, Units, Sources, Sentences, AllComeBack, AllKept, Representable;
    UntouchedExactly(u, raw, rules, AsEnglish);
    KeptIs(u, Units(ShapeOf(raw, rules)));
  }

  /** So it may where no unit names a span of its own by the placeholder that stands for it. */
  lemma NoNameComesBack(u: Alphabet, text: string)
    requires Solid(text) && Representable(text) && Met(|Protected(text)|, text) == []
    ensures forall s :: s in UnitPlan.Prepare(u, text).sentences ==> ComesBack(Protected(text), s)
  {
    hide Split, Masking.Mask, UnitPlan.GapsOf, WellCut, UnitPlan.SolidTable, Weave, Solid, Restored, UnitPlan.MetAll, Met, SelfNamed;
    var sentences := UnitPlan.Prepare(u, text).sentences;
    var table, gaps := Protected(text), UnitPlan.GapsOf(u, text);
    var english := UnitPlan.English(table, sentences);
    UnitPlan.MaskTable(text);
    UnitPlan.UnitWeaves(u, text);
    UnitPlan.EnglishWellCut(table, sentences, gaps);
    UnitPlan.RestoredWeave(table, english, gaps);
    EnglishNamesNothing(table, english);
    forall i | 0 <= i < |sentences| ensures ComesBack(table, sentences[i]) { NothingNamed(table, english[i]); }
  }

  lemma {:induction false} EnglishNamesNothing(table: seq<string>, pieces: seq<string>)
    requires UnitPlan.MetAll(|table|, pieces) == []
    ensures forall i :: 0 <= i < |pieces| ==> Met(|table|, pieces[i]) == []
  {
    hide Met;
    if pieces != [] { EnglishNamesNothing(table, pieces[..|pieces| - 1]); }
  }

  // ----- whatever the engine answers

  /** Where each line begins in the lines joined. */
  function Starts(lines: seq<string>): (r: seq<nat>)
    ensures |r| == |lines|
  {
    if lines == [] then []
    else if |lines| == 1 then [0]
    else
      var k := |lines| - 1;
      Starts(lines[..k]) + [|JoinLines(lines[..k])| + 1]
  }

  /** The non-empty lines stand in `gloss` where `at` says, in order and apart. */
  ghost predicate InOrder(gloss: string, lines: seq<string>, at: seq<nat>) {
    && |at| == |lines|
    && (forall i :: 0 <= i < |lines| && lines[i] != "" ==> OccursAt(gloss, lines[i], at[i]))
    && (forall i, j :: 0 <= i < j < |lines| && lines[i] != "" && lines[j] != "" ==> at[i] + |lines[i]| < at[j])
  }

  lemma OccursFurther(text: string, more: string, span: string, at: nat)
    requires OccursAt(text, span, at)
    ensures OccursAt(text + more, span, at)
  {
    assert (text + more)[at..at + |span|] == text[at..at + |span|];
  }

  lemma OccursLast(text: string, span: string)
    ensures OccursAt(text + span, span, |text|)
  {
  }

  lemma {:induction false} JoinedInOrder(lines: seq<string>)
    ensures InOrder(JoinLines(lines), lines, Starts(lines))
  {
    if |lines| > 1 {
      var k := |lines| - 1;
      var before, at := lines[..k], Starts(lines);
      JoinedInOrder(before);
      GlossPlan.JoinLast(lines);
      assert at == Starts(before) + [|JoinLines(before)| + 1];
      hide JoinLines, OccursAt, Starts;
      forall i | 0 <= i < |lines| && lines[i] != ""
        ensures OccursAt(JoinLines(lines), lines[i], at[i])
        ensures i < k ==> at[i] + |lines[i]| <= |JoinLines(before)|
      {
        if i < k {
          assert before[i] == lines[i];
          OccursWithin(JoinLines(before), lines[i], at[i]);
          assert JoinLines(lines) == JoinLines(before) + ("\n" + lines[k]);
          OccursFurther(JoinLines(before), "\n" + lines[k], lines[i], at[i]);
        } else {
          OccursLast(JoinLines(before) + "\n", lines[k]);
        }
      }
    } else if |lines| == 1 {
      assert lines[0][0..|lines[0]|] == lines[0];
    }
  }

  lemma OccursWithin(text: string, span: string, at: nat)
    requires OccursAt(text, span, at)
    ensures at + |span| <= |text|
  {
  }

  /** Every non-empty line of the block is in the gloss, and they keep their order. */
  lemma RebuiltInOrder(pieces: seq<Piece>, texts: seq<string>)
    ensures exists at :: InOrder(RebuildText(pieces, texts), RenderedAll(pieces, texts), at)
  {
    hide JoinLines, DropFront, DropBack, Rendered, UnitCount, OccursAt, Starts;
    var lines := RenderedAll(pieces, texts);
    var from, to := FrameOf(lines);
    JoinedInOrder(lines[from..to]);
    var starts := Starts(lines[from..to]);
    var at := seq(|lines|, i requires 0 <= i < |lines| => if from <= i < to then starts[i - from] else 0);
    assert forall i :: from <= i < to ==> lines[from..to][i - from] == lines[i];
    assert InOrder(RebuildText(pieces, texts), lines, at);
  }

  /** The spans `mask` protects in a text. */
  function Protected(text: string): seq<string> { Table(Mask(text).preserved) }

  lemma TextHoldsSpans(text: string, j: nat)
    requires Representable(text) && j < |Protected(text)|
    ensures Contains(text, Protected(text)[j])
  {
    hide Masking.Mask, Restored, Met, Contains;
    var m := Mask(text);
    MaskingIsUndone(text);
    assert UpTo(0, |Table(m.preserved)|)[j] == j;
    FragmentKeepsSpans(Table(m.preserved), m.masked, m.masked, j);
  }

  /** The text a unit comes back as holds all that was protected in it. */
  lemma TextKeepsSpans(u: Alphabet, raw: string, rules: Rules, translations: seq<string>, unit: nat, j: nat)
    requires AllRepresentable(Units(ShapeOf(raw, rules)))
    requires unit < UnitCount(ShapeOf(raw, rules)) && j < |Protected(Units(ShapeOf(raw, rules))[unit])|
    ensures var texts := TextsOf(PlanFor(u, raw, rules), translations);
      |texts| == UnitCount(ShapeOf(raw, rules)) && Contains(texts[unit], Protected(Units(ShapeOf(raw, rules))[unit])[j])
  {
    hide ShapeOf, UnitPlan.RestoreUnit, Contains, Masking.Mask, Split, Representable, Sentences, Units, UnitCount,
      TextsFrom, FitPieces, Solid;
    var plan := PlanFor(u, raw, rules);
    var text := Units(plan.pieces)[unit];
    if |translations| != |Sentences(plan.units)| {
      TextHoldsSpans(text, j);
    } else {
      ShapeFits(raw, rules);
      UnitsFit(plan.pieces);
      TextsAt(plan.units, translations, unit);
      var (n, m) := Share(plan.units, unit);
      assert |translations[n..m]| == |Sentences(plan.units)[n..m]|;
      UnitPlan.UnitKeepsSpans(u, text, translations[n..m], j);
    }
  }

  lemma GlossIsRebuilt(plan: Plan, translations: seq<string>)
    ensures RestoreGloss(plan, translations) == RebuildText(plan.pieces, TextsOf(plan, translations))
  {
    hide RebuildText, TextsFrom, Units;
    RebuiltAsIs(plan.pieces);
  }

  /** The line a piece is printed as, given the texts its units come back as. */
  ghost predicate PrintedAs(piece: Piece, line: string, texts: seq<string>, unit: nat) {
    match piece
    case BlankPiece => line == ""
    case Verbatim(text) => line == text
    case Unit(lead, text) => unit < |texts| && line == lead + texts[unit]
  }

  lemma LinesPrinted(pieces: seq<Piece>, texts: seq<string>, i: nat)
    requires i < |pieces| && |texts| == UnitCount(pieces)
    ensures PrintedAs(pieces[i], RenderedAll(pieces, texts)[i], texts, UnitCount(pieces[..i]))
  {
    hide UnitCount, Units;
    UnitCountBelow(pieces, i);
  }

  /** Whatever strings an engine answers, and however many: each verbatim line and each unit's lead
    * with its text behind it stand in the gloss, in the order of the comment, and each unit's text
    * holds every span that was protected in it. */
  lemma NothingProtectedIsLost(u: Alphabet, raw: string, rules: Rules, translations: seq<string>)
    requires AllRepresentable(Units(ShapeOf(raw, rules)))
    ensures var plan := PlanFor(u, raw, rules);
      var texts := TextsOf(plan, translations);
      var lines := RenderedAll(plan.pieces, texts);
      && (exists at :: InOrder(RestoreGloss(plan, translations), lines, at))
      && (forall i :: 0 <= i < |plan.pieces| ==>
            PrintedAs(plan.pieces[i], lines[i], texts, UnitCount(plan.pieces[..i])))
      && |texts| == |Units(plan.pieces)|
      && (forall k, j :: 0 <= k < |texts| && 0 <= j < |Protected(Units(plan.pieces)[k])| ==>
            Contains(texts[k], Protected(Units(plan.pieces)[k])[j]))
  {
    hide ShapeOf, InOrder, RebuildText, RestoreGloss, Rendered, Protected, Contains, UnitPlan.Prepare, UnitCount, Units, TextsFrom,
      Sentences, Representable;
    var plan := PlanFor(u, raw, rules);
    var texts := TextsOf(plan, translations);
    GlossIsRebuilt(plan, translations);
    RebuiltInOrder(plan.pieces, texts);
    forall i | 0 <= i < |plan.pieces|
      ensures PrintedAs(plan.pieces[i], RenderedAll(plan.pieces, texts)[i], texts, UnitCount(plan.pieces[..i]))
    {
      LinesPrinted(plan.pieces, texts, i);
    }
    forall k, j | 0 <= k < |texts| && 0 <= j < |Protected(Units(plan.pieces)[k])|
      ensures Contains(texts[k], Protected(Units(plan.pieces)[k])[j])
    {
      TextKeepsSpans(u, raw, rules, translations, k, j);
    }
  }

  // ----- the English of a segment that names spans

  /** Two names that stand for each other come back swapped. */
  lemma SwappedBack(x0: string, x1: string)
    requires x0 == Placeholder(0) && x1 == Placeholder(1)
    ensures var table, fragment := [x1, x0], x0 + " " + x1;
      var english := Restored(table, fragment);
      && english == x1 + " " + x0 && english != fragment
      && UnmaskFragment(table, fragment, english) == fragment
  {
    hide Restored, Met, Placeholder;
    Swap(x0, x1, 0, 1);
    Swap(x0, x1, 1, 0);
    PlaceholderReadsBack(0, " " + x1);
    PlaceholderReadsBack(1, " " + x0);
    assert x0 + (" " + x1) == x0 + " " + x1 && x1 + (" " + x0) == x1 + " " + x0;
  }

  lemma Swap(x0: string, x1: string, i: nat, j: nat)
    requires x0 == Placeholder(0) && x1 == Placeholder(1) && i <= 1 && j <= 1
    ensures var table, text := [x1, x0], [x0, x1][i] + " " + [x0, x1][j];
      Restored(table, text) == table[i] + " " + table[j] && Met(2, text) == [i, j]
  {
    hide Restored, Met, PlaceholderAt, Placeholder;
    var table, a, b := [x1, x0], [x0, x1][i], [x0, x1][j];
    assert a + " " + b == a + (" " + b);
    PlaceholderStep(table, i, " " + b);
    NoPlaceholder(" " + b);
    CopyStep(table, ' ', b);
    PlaceholderStep(table, j, "");
    RestoredNothing(table);
    assert b + "" == b && [' '] + b == " " + b;
  }
}
