/** One unit of prose on its way through the engine: masked, cut into sentences, and put back. */
module UnitPlan {
  import opened Masking
  import opened Preserve
  import opened Protect
  import opened Sentence
  import opened Text
  import opened Wrappers

  datatype Unit = Unit(masked: Masked, sentences: seq<string>)

  function Prepare(u: Alphabet, text: string): Unit {
    var m := Mask(text);
    Unit(m, Split(u, m.masked))
  }

  /** Each translation with its fragment's spans put back, or the fragment's own English. */
  function Unmasked(table: seq<string>, sentences: seq<string>, translations: seq<string>): (r: seq<string>)
    requires |translations| == |sentences|
    ensures |r| == |sentences|
    ensures forall i :: 0 <= i < |r| ==> r[i] == UnmaskFragment(table, sentences[i], translations[i])
  {
    seq(|sentences|, i requires 0 <= i < |sentences| => UnmaskFragment(table, sentences[i], translations[i]))
  }

  /** The line a unit comes back as. */
  function RestoreUnit(unit: Unit, translations: seq<string>): string
    requires |translations| == |unit.sentences|
  {
    Join(Unmasked(Table(unit.masked.preserved), unit.sentences, translations))
  }

  method RestoreUnitText(unit: Unit, translations: seq<string>) returns (r: string)
    requires |translations| == |unit.sentences|
    ensures r == RestoreUnit(unit, translations)
  {
    var table := Table(unit.masked.preserved);
    var sentences: seq<string> := [];
    for i := 0 to |translations|
      invariant |sentences| == i
      invariant forall k :: 0 <= k < i ==> sentences[k] == UnmaskFragment(table, unit.sentences[k], translations[k])
    {
      var sentence := UnmaskFragmentText(table, unit.sentences[i], translations[i]);
      sentences := sentences + [sentence];
    }
    assert sentences == Unmasked(table, unit.sentences, translations);
    r := JoinSentences(sentences);
  }

  /** The English of each piece. */
  function English(table: seq<string>, pieces: seq<string>): (r: seq<string>)
    ensures |r| == |pieces| && forall i :: 0 <= i < |r| ==> r[i] == Restored(table, pieces[i])
  {
    seq(|pieces|, i requires 0 <= i < |pieces| => Restored(table, pieces[i]))
  }

  // ----- restoring piece by piece

  /** Spans that have something in them and no white space around it, as all protected ones do. */
  ghost predicate SolidTable(table: seq<string>) {
    forall i :: 0 <= i < |table| ==> Solid(table[i])
  }

  lemma SpaceStays(table: seq<string>, gap: string)
    requires AllSpace(gap)
    ensures Restored(table, gap) == gap && Met(|table|, gap) == []
  {
    hide Restored, Met;
    forall i | 0 <= i < |gap| ensures gap[i] != 'X' { assert IsWhitespace(gap[i]); }
    NoPlaceholderBefore(table, gap, |gap|);
    RestoredNothing(table);
    assert gap[|gap|..] == "" && gap[..|gap|] == gap;
  }

  lemma StopCutsClean(a: string, b: string)
    requires a != "" && IsStop(a[|a| - 1])
    ensures CleanCut(a, b)
  {
    StopIsSpaceless(a[|a| - 1]);
  }

  lemma SpaceCutsClean(a: string, b: string)
    requires a != "" && IsWhitespace(a[|a| - 1])
    ensures CleanCut(a, b)
  {
  }

  /** The indices of the pieces' placeholders, piece after piece. */
  function MetAll(size: nat, pieces: seq<string>): seq<nat> {
    if pieces == [] then [] else MetAll(size, pieces[..|pieces| - 1]) + Met(size, pieces[|pieces| - 1])
  }

  /** No placeholder is cut: restoring the pieces is restoring the text they were cut from. */
  lemma {:induction false} RestoredWeave(table: seq<string>, pieces: seq<string>, gaps: seq<string>)
    requires WellCut(pieces, gaps)
    ensures Restored(table, Weave(pieces, gaps)) == Weave(English(table, pieces), gaps)
    ensures Met(|table|, Weave(pieces, gaps)) == MetAll(|table|, pieces)
    decreases |pieces|
  {
    hide Restored, Met, Weave, MetAll;
    var k := |gaps|;
    if k == 0 {
      assert pieces == [pieces[0]] && gaps == [];
      OnePieceMet(|table|, pieces[0]);
      WeaveOne(pieces[0]);
      assert English(table, pieces) == [Restored(table, pieces[0])];
      WeaveOne(Restored(table, pieces[0]));
    } else {
      WellCutPrefix(pieces, gaps);
      hide WellCut;
      RestoredWeave(table, pieces[..k], gaps[..k - 1]);
      assert English(table, pieces)[..k] == English(table, pieces[..k]);
      MetLast(|table|, pieces);
      WeaveLast(pieces, gaps);
      WeaveLast(English(table, pieces), gaps);
      RestoredAround(table, Weave(pieces[..k], gaps[..k - 1]), gaps[k - 1], pieces[k]);
    }
  }

  lemma OnePieceMet(size: nat, piece: string)
    ensures MetAll(size, [piece]) == Met(size, piece)
  {
    assert [piece][..0] == [];
  }

  lemma MetLast(size: nat, pieces: seq<string>)
    requires pieces != []
    ensures MetAll(size, pieces) == MetAll(size, pieces[..|pieces| - 1]) + Met(size, pieces[|pieces| - 1])
  {
  }

  lemma WellCutPrefix(pieces: seq<string>, gaps: seq<string>)
    requires WellCut(pieces, gaps) && gaps != []
    ensures var k := |gaps|;
      && WellCut(pieces[..k], gaps[..k - 1])
      && gaps[k - 1] != "" && AllSpace(gaps[k - 1])
      && Weave(pieces[..k], gaps[..k - 1]) != ""
      && IsStop(Weave(pieces[..k], gaps[..k - 1])[|Weave(pieces[..k], gaps[..k - 1])| - 1])
  {
    hide IsWhitespace, IsStop;
    var k := |gaps|;
    WeaveEnd(pieces[..k], gaps[..k - 1]);
  }

  lemma RestoredAround(table: seq<string>, before: string, gap: string, piece: string)
    requires before != "" && IsStop(before[|before| - 1]) && gap != "" && AllSpace(gap)
    ensures Restored(table, before + gap + piece) == Restored(table, before) + gap + Restored(table, piece)
    ensures Met(|table|, before + gap + piece) == Met(|table|, before) + Met(|table|, piece)
  {
    hide Restored, Met, CleanCut, IsStop;
    StopCutsClean(before, gap);
    SpaceCutsClean(before + gap, piece);
    RestoredAppend(table, before + gap, piece);
    RestoredAppend(table, before, gap);
    SpaceStays(table, gap);
  }

  // ----- restoring keeps the ends of a piece

  lemma {:induction false} RestoredEnd(table: seq<string>, t: string)
    requires SolidTable(table) && t != "" && !IsWhitespace(t[|t| - 1])
    ensures Restored(table, t) != "" && !IsWhitespace(Restored(table, t)[|Restored(table, t)| - 1])
    decreases t
  {
    hide IsWhitespace, Restored, Met, PlaceholderAt;
    OneStep(table, t);
    var n := Width(|table|, t);
    var rest := t[n..];
    if rest == "" {
      RestoredNothing(table);
      WholeStep(table, t);
    } else {
      assert rest[|rest| - 1] == t[|t| - 1];
      RestoredEnd(table, rest);
    }
  }

  /** The last step of a pass writes a span or the last character. */
  lemma WholeStep(table: seq<string>, t: string)
    requires SolidTable(table) && t != "" && Width(|table|, t) == |t| && !IsWhitespace(t[|t| - 1])
    ensures Front(table, t) != "" && !IsWhitespace(Front(table, t)[|Front(table, t)| - 1])
  {
    hide IsWhitespace, PlaceholderAt;
  }

  lemma RestoredSolid(table: seq<string>, t: string)
    requires SolidTable(table) && Solid(t)
    ensures Solid(Restored(table, t))
  {
    hide IsWhitespace, Restored, Met, PlaceholderAt, Width;
    RestoredEnd(table, t);
    OneStep(table, t);
  }

  /** A piece that ends in a stop ends in it after restoring too. */
  lemma RestoredStop(table: seq<string>, t: string)
    requires t != "" && IsStop(t[|t| - 1])
    ensures var r := Restored(table, t);
      && r == Restored(table, t[..|t| - 1]) + [t[|t| - 1]]
      && r != "" && r[|r| - 1] == t[|t| - 1]
    ensures Met(|table|, t) == Met(|table|, t[..|t| - 1])
  {
    var body, stop := t[..|t| - 1], [t[|t| - 1]];
    StopIsSpaceless(t[|t| - 1]);
    assert t == body + stop;
    hide Restored, Met, IsStop, IsWhitespace;
    RestoredAppend(table, body, stop);
    NoPlaceholderBefore(table, stop, 1);
    RestoredNothing(table);
    assert stop[1..] == "" && stop[..1] == stop;
  }

  // ----- the masked text is prose like the text

  lemma {:induction false} RenderSolid(rest: string, previous: Option<char>, n: nat)
    requires rest != "" && !IsWhitespace(rest[|rest| - 1])
    ensures var r := Render(Parts(rest, previous), n); r != "" && !IsWhitespace(r[|r| - 1])
    ensures var r := Render(Parts(rest, previous), n); r[0] == 'X' || r[0] == rest[0]
    decreases rest
  {
    hide IsWhitespace, Parts, Render, ProtectedSpan, Placeholder, Spans, Written;
    PartsStep(rest, previous);
    PlaceholderOpens(n);
    NothingMasked(Some(rest[|rest| - 1]), n, n + 1);
    var span := ProtectedSpan(rest, previous);
    var width := if span.Some? then span.value.0 else 1;
    var tail, last := rest[width..], Some(rest[width - 1]);
    PartStep(if span.Some? then Hidden(Preserved(rest[..width], span.value.1)) else Copied(rest[0]), Parts(tail, last), n);
    if tail != "" {
      assert tail[|tail| - 1] == rest[|rest| - 1];
      RenderSolid(tail, last, if span.Some? then n + 1 else n);
    }
  }

  lemma NothingMasked(previous: Option<char>, n: nat, m: nat)
    ensures Render(Parts("", previous), n) == "" && Render(Parts("", previous), m) == "" && !IsWhitespace('Q')
  {
  }

  lemma MaskedSolid(text: string)
    requires Solid(text)
    ensures Solid(Mask(text).masked)
  {
    hide Parts, Render, Spans;
    RenderSolid(text, None, 0);
  }

  lemma MaskTable(text: string)
    ensures SolidTable(Table(Mask(text).preserved))
  {
    SpansTrimmed(text, None);
    hide Parts, Render, Spans, IsWhitespace;
    var spans := Mask(text).preserved;
    forall i | 0 <= i < |spans| ensures Solid(Table(spans)[i]) { assert spans[i] in spans; }
  }

  // ----- a unit there and back

  /** The white space the splitter took out of the masked text. */
  function GapsOf(u: Alphabet, text: string): seq<string> { GapsFrom(u, Mask(text).masked, 0) }

  /** A unit's sentences, spans put back and gaps between them, are the unit; and they name every
    * one of its spans once, in order. */
  lemma UnitWeaves(u: Alphabet, text: string)
    requires Solid(text) && Representable(text)
    ensures var unit := Prepare(u, text);
      var table := Table(unit.masked.preserved);
      && WellCut(unit.sentences, GapsOf(u, text))
      && Weave(English(table, unit.sentences), GapsOf(u, text)) == text
      && MetAll(|table|, unit.sentences) == UpTo(0, |table|)
  {
    hide Parts, Render, Spans, Restored, Met, Weave, Split, SplitFrom, GapsFrom, MetAll, Masking.Mask;
    var m := Mask(text);
    MaskingIsUndone(text);
    MaskedSolid(text);
    SplitWeaves(u, m.masked);
    RestoredWeave(Table(m.preserved), Split(u, m.masked), GapsOf(u, text));
  }

  /** Strings that can stand for the unit's sentences: set apart alike, and each the same or apart. */
  ghost predicate Fits(answers: seq<string>, english: seq<string>) {
    && |answers| == |english|
    && (forall i :: 0 <= i < |answers| ==> Solid(answers[i]) && SameOrApart(answers[i], english[i]))
    && (forall i :: 0 <= i < |answers| - 1 ==> WantsSpace(answers[i]))
  }

  lemma EnglishFits(table: seq<string>, pieces: seq<string>, gaps: seq<string>)
    requires SolidTable(table) && WellCut(pieces, gaps)
    ensures Fits(English(table, pieces), English(table, pieces))
  {
    hide Restored, IsWhitespace, IsStop, IsJapaneseTerminator;
    forall i | 0 <= i < |pieces|
      ensures Solid(Restored(table, pieces[i]))
      ensures i < |gaps| ==> WantsSpace(Restored(table, pieces[i]))
    {
      RestoredSolid(table, pieces[i]);
      if i < |gaps| {
        RestoredStop(table, pieces[i]);
        StopIsSpaceless(pieces[i][|pieces[i]| - 1]);
      }
    }
  }

  /** Joined, such strings are the unit exactly when they are its sentences and single spaces
    * stood between those; otherwise the two differ at a place both have. */
  lemma JoinedIs(u: Alphabet, text: string, answers: seq<string>)
    requires Solid(text) && Representable(text)
    requires var unit := Prepare(u, text);
      Fits(answers, English(Table(unit.masked.preserved), unit.sentences))
    ensures var unit := Prepare(u, text);
      Join(answers) == text <==>
        answers == English(Table(unit.masked.preserved), unit.sentences) && SingleSpaced(GapsOf(u, text))
    ensures Join(answers) != "" && SameOrApart(Join(answers), text)
  {
    hide Split, Masking.Mask, GapsOf, Weave, Join, Restored, Solid, WantsSpace, SingleSpaced, MetAll, SameOrApart, IsStop;
    UnitWeaves(u, text);
    MaskTable(text);
    var unit, gaps := Prepare(u, text), GapsOf(u, text);
    var table := Table(unit.masked.preserved);
    var english := English(table, unit.sentences);
    EnglishFits(table, unit.sentences, gaps);
    JoinWeaves(answers);
    JoinedSomething(answers);
    WeaveEqual(answers, english, gaps);
  }

  /** Joined with what stands for the same sentences, they are that exactly when they are those. */
  lemma JoinedAlike(answers: seq<string>, others: seq<string>)
    requires answers != [] && Fits(answers, others) && Fits(others, others)
    ensures Join(answers) == Join(others) <==> answers == others
    ensures Join(answers) != "" && SameOrApart(Join(answers), Join(others))
  {
    hide Weave, Join, Solid, WantsSpace, SameOrApart;
    JoinWeaves(answers);
    JoinWeaves(others);
    JoinedSomething(answers);
    SpaceIsSpace();
    WeaveEqual(answers, others, Spaces(|answers| - 1));
  }

  lemma SpaceIsSpace()
    ensures " " != "" && AllSpace(" ")
  {
  }

  lemma JoinedSomething(answers: seq<string>)
    requires answers != [] && Solid(answers[|answers| - 1])
    ensures Join(answers) != ""
  {
    hide WantsSpace, Trim, IsWhitespace;
    JoinLast(answers);
    AppendSolid(Join(answers[..|answers| - 1]), answers[|answers| - 1]);
  }

  lemma UnmaskedSame(table: seq<string>, pieces: seq<string>)
    ensures Unmasked(table, pieces, pieces) == English(table, pieces)
  {
    hide Restored, Met;
  }

  /** What an engine that returns its input answers. */
  function Echoed(pieces: seq<string>): (r: seq<string>)
    ensures |r| == |pieces| && forall i :: 0 <= i < |r| ==> r[i] == EngineForm(pieces[i])
  {
    seq(|pieces|, i requires 0 <= i < |pieces| => EngineForm(pieces[i]))
  }

  predicate EndsInComma(s: string) { s != "" && s[|s| - 1] == CLAUSE_SEPARATOR }

  /** The engine's form of a piece comes back as the piece with its trailing comma, if any, a full stop. */
  lemma EchoedPiece(table: seq<string>, piece: string)
    requires SolidTable(table) && Solid(piece)
    ensures var r, e := Restored(table, piece), UnmaskFragment(table, piece, EngineForm(piece));
      && SameOrApart(e, r) && Solid(e)
      && (e == r <==> !EndsInComma(piece))
      && (EndsInComma(piece) ==> WantsSpace(e))
  {
    hide Restored, Met, IsWhitespace;
    RestoredSolid(table, piece);
    if EndsInComma(piece) {
      var body := piece[..|piece| - 1];
      assert EngineForm(piece) == body + ".";
      assert (body + ".")[..|body|] == body;
      RestoredStop(table, piece);
      RestoredStop(table, body + ".");
      var e := Restored(table, body + ".");
      assert e == Restored(table, body) + ['.'] && Restored(table, piece) == Restored(table, body) + [','];
      StopsSolid(Restored(table, body));
    }
  }

  lemma StopsSolid(body: string)
    requires Solid(body + [','])
    ensures Solid(body + ['.']) && body + ['.'] != body + [','] && WantsSpace(body + ['.'])
  {
    assert body != "" ==> (body + [','])[0] == body[0] == (body + ['.'])[0];
    assert (body + ['.'])[|body|] == '.' && (body + [','])[|body|] == ',';
    hide IsWhitespace;
    CommaIsNoSpace();
  }

  lemma CommaIsNoSpace()
    ensures !IsWhitespace('.') && !IsWhitespace(',')
  {
  }

  lemma EchoFits(table: seq<string>, pieces: seq<string>, gaps: seq<string>)
    requires SolidTable(table) && WellCut(pieces, gaps)
    ensures Fits(Unmasked(table, pieces, Echoed(pieces)), English(table, pieces))
    ensures Unmasked(table, pieces, Echoed(pieces)) == English(table, pieces)
      <==> forall i :: 0 <= i < |pieces| ==> !EndsInComma(pieces[i])
  {
    EnglishFits(table, pieces, gaps);
    hide Restored, UnmaskFragment, EngineForm, IsStop, EndsInComma, WantsSpace, IsWhitespace;
    var e, r := Unmasked(table, pieces, Echoed(pieces)), English(table, pieces);
    forall i | 0 <= i < |pieces|
      ensures Solid(e[i]) && SameOrApart(e[i], r[i]) && (e[i] == r[i] <==> !EndsInComma(pieces[i]))
      ensures i < |gaps| ==> WantsSpace(e[i])
    {
      EchoedPiece(table, pieces[i]);
    }
  }

  /** The English of a unit's sentences, fed back. */
  lemma EnglishBackFits(text: string, pieces: seq<string>, gaps: seq<string>)
    requires WellCut(pieces, gaps)
    ensures var table := Table(Mask(text).preserved);
      var english := English(table, pieces);
      && Fits(Unmasked(table, pieces, english), english)
      && (Unmasked(table, pieces, english) == english <==> forall i :: 0 <= i < |pieces| ==> ComesBack(table, pieces[i]))
  {
    hide Restored, Met, UnmaskFragment, Masking.Mask, ComesBack, WantsSpace, Solid, SameOrApart, SolidTable, IsStop;
    var table := Table(Mask(text).preserved);
    var english := English(table, pieces);
    var back := Unmasked(table, pieces, english);
    MaskTable(text);
    EnglishWellCut(table, pieces, gaps);
    EnglishFits(table, pieces, gaps);
    EnglishFits(table, english, gaps);
    forall i | 0 <= i < |pieces|
      ensures Solid(back[i]) && SameOrApart(back[i], english[i])
      ensures back[i] == english[i] <==> ComesBack(table, pieces[i])
      ensures i < |gaps| ==> WantsSpace(back[i])
    {
      EnglishFedBack(text, pieces[i]);
      FedBackIs(table, pieces[i]);
    }
  }

  lemma FedBackIs(table: seq<string>, piece: string)
    ensures var e := Restored(table, piece);
      UnmaskFragment(table, piece, e) == e || UnmaskFragment(table, piece, e) == Restored(table, e)
  {
    hide Restored, Met;
  }

  lemma EnglishWellCut(table: seq<string>, pieces: seq<string>, gaps: seq<string>)
    requires SolidTable(table) && WellCut(pieces, gaps)
    ensures WellCut(English(table, pieces), gaps)
  {
    hide Restored, Met, IsWhitespace, IsStop;
    var english := English(table, pieces);
    forall i | 0 <= i < |pieces|
      ensures Solid(english[i])
      ensures i < |gaps| ==> IsStop(english[i][|english[i]| - 1])
    {
      RestoredSolid(table, pieces[i]);
      if i < |gaps| { RestoredStop(table, pieces[i]); }
    }
  }

  // ----- whatever the engine answers

  lemma {:induction false} MetSomewhere(size: nat, pieces: seq<string>, j: nat)
    requires j in MetAll(size, pieces)
    ensures exists i :: 0 <= i < |pieces| && j in Met(size, pieces[i])
  {
    hide Met;
    var k := |pieces| - 1;
    if j !in Met(size, pieces[k]) {
      MetSomewhere(size, pieces[..k], j);
    }
  }

  lemma OccursEnds(t: string, span: string, at: nat)
    requires OccursAt(t, span, at) && span != ""
    ensures at + |span| <= |t| && t[at] == span[0] && t[at + |span| - 1] == span[|span| - 1]
  {
    assert t[at..at + |span|][|span| - 1] == t[at + |span| - 1];
  }

  lemma ContainsTrimmed(t: string, span: string)
    requires Contains(t, span) && Solid(span)
    ensures Contains(Trim(t), span)
  {
    hide Trim, IsWhitespace;
    var at: nat :| OccursAt(t, span, at);
    var before, after := TrimSplits(t);
    var trimmed := Trim(t);
    OccursEnds(t, span, at);
    hide OccursAt;
    assert forall i :: 0 <= i < |before| ==> t[i] == before[i];
    assert forall i :: |before| + |trimmed| <= i < |t| ==> t[i] == after[i - |before| - |trimmed|];
    assert |before| <= at && at + |span| <= |before| + |trimmed|;
    OccursInside(before, trimmed, after, span, at);
  }

  lemma {:induction false} JoinKeeps(answers: seq<string>, i: nat, span: string)
    requires i < |answers| && Contains(answers[i], span) && Solid(span)
    ensures Contains(Join(answers), span)
  {
    hide Contains, Trim, IsWhitespace, Join, Append;
    var k := |answers| - 1;
    JoinLast(answers);
    if i == k {
      ContainsTrimmed(answers[k], span);
      AppendKeeps(Join(answers[..k]), answers[k], Trim(answers[k]), span);
    } else {
      JoinKeeps(answers[..k], i, span);
      AppendKeeps(Join(answers[..k]), answers[k], Join(answers[..k]), span);
    }
  }

  lemma AppendKeeps(joined: string, t: string, part: string, span: string)
    requires Contains(part, span) && (part == joined || part == Trim(t))
    ensures Contains(Append(joined, t), span)
  {
    hide Contains, Trim;
    var trimmed := Trim(t);
    if trimmed == "" && part == trimmed {
      ContainsWithin(joined, "", "", span);
      assert joined + "" + "" == joined;
    } else if part == joined {
      ContainsWithin("", joined, trimmed, span);
      ContainsWithin("", joined, " " + trimmed, span);
      assert "" + joined + trimmed == joined + trimmed;
      assert "" + joined + (" " + trimmed) == joined + " " + trimmed;
    } else {
      ContainsWithin(joined, trimmed, "", span);
      ContainsWithin(joined + " ", trimmed, "", span);
      assert joined + trimmed + "" == joined + trimmed;
      assert joined + " " + trimmed + "" == joined + " " + trimmed;
    }
  }

  /** Whatever an engine answers for the sentences of a unit, each protected span of the unit is in
    * the line it comes back as. */
  lemma UnitKeepsSpans(u: Alphabet, text: string, translations: seq<string>, j: nat)
    requires Solid(text) && Representable(text)
    requires |translations| == |Prepare(u, text).sentences|
    requires j < |Prepare(u, text).masked.preserved|
    ensures Contains(RestoreUnit(Prepare(u, text), translations), Prepare(u, text).masked.preserved[j].text)
  {
    hide Contains, Restored, Met, UnmaskFragment, Split, Masking.Mask, MetAll, Weave, WellCut, Join, IsWhitespace, GapsOf;
    var unit := Prepare(u, text);
    var table := Table(unit.masked.preserved);
    UnitWeaves(u, text);
    MaskTable(text);
    assert UpTo(0, |table|)[j] == j;
    MetSomewhere(|table|, unit.sentences, j);
    var i :| 0 <= i < |unit.sentences| && j in Met(|table|, unit.sentences[i]);
    FragmentKeepsSpans(table, unit.sentences[i], translations[i], j);
    JoinKeeps(Unmasked(table, unit.sentences, translations), i, table[j]);
  }
}
