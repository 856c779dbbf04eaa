/** Masked prose cut into pieces and joined again, and what the way there and back keeps. */
module Sentence {
  import opened Text
  import opened Wrappers

  /** The two Unicode tables the splitter reads. Nothing below depends on what they hold. */
  datatype Alphabet = Alphabet(alphanumeric: char -> bool, uppercase: char -> bool)

  /** Stops of the first kind: what follows must open a sentence. */
  predicate IsTerminator(c: char) { c == '.' || c == '!' || c == '?' }

  /** Full-width stops: joining puts no space behind one. The splitter does not look for them. */
  predicate IsJapaneseTerminator(c: char) {
    c == '\U{3002}' || c == '\U{FF01}' || c == '\U{FF1F}' || c == '\U{FF0E}'
  }

  predicate IsClauseTerminator(c: char) { c == ';' || c == ':' }

  const CLAUSE_SEPARATOR: char := ','
  const MIN_CLAUSE_WORDS: nat := 4

  /** What a comma may be cut in front of. */
  predicate IsRelativeOpener(w: string) {
    w == "which" || w == "who" || w == "whom" || w == "whose" || w == "where"
  }

  /** A full stop behind one of these is no boundary. */
  predicate IsListedAbbreviation(w: string) {
    || w == "e.g" || w == "i.e" || w == "etc" || w == "vs" || w == "cf" || w == "al" || w == "approx"
    || w == "resp" || w == "dr" || w == "mr" || w == "mrs" || w == "ms" || w == "prof" || w == "st"
  }

  /** Characters that can open a sentence, besides an upper-case letter or a digit. */
  predicate IsOpener(c: char) {
    c == '`' || c == '"' || c == '\'' || c == '(' || c == '[' || c == '{' || c == '*'
  }

  /** A character a sentence may be cut after. */
  predicate IsStop(c: char) {
    IsTerminator(c) || IsClauseTerminator(c) || c == CLAUSE_SEPARATOR
  }

  // ----- what makes a boundary

  /** The maximal runs of `text` that hold no white space. */
  function Words(text: string): seq<string> {
    var t := TrimStart(text);
    TrimStartIs(text);
    if t == "" then []
    else
      var n := WordLength(t);
      [t[..n]] + Words(t[n..])
  }

  function WordLength(t: string): (n: nat)
    ensures n <= |t| && (t != "" && !IsWhitespace(t[0]) ==> n > 0)
  {
    if t == "" || IsWhitespace(t[0]) then 0 else 1 + WordLength(t[1..])
  }

  function CountWords(u: Alphabet, words: seq<string>): nat {
    if words == [] then 0
    else if exists i :: 0 <= i < |words[0]| && u.alphanumeric(words[0][i]) then 1 + CountWords(u, words[1..])
    else CountWords(u, words[1..])
  }

  function LowerAscii(s: string): string {
    seq(|s|, i requires 0 <= i < |s| => if 'A' <= s[i] <= 'Z' then (s[i] as int + 32) as char else s[i])
  }

  function StripFront(u: Alphabet, s: string): string {
    if s != "" && !u.alphanumeric(s[0]) then StripFront(u, s[1..]) else s
  }

  function StripBack(u: Alphabet, s: string): string {
    if s != "" && !u.alphanumeric(s[|s| - 1]) then StripBack(u, s[..|s| - 1]) else s
  }

  predicate OpensARelativeClause(u: Alphabet, after: string) {
    Words(after) != [] && IsRelativeOpener(LowerAscii(StripBack(u, StripFront(u, Words(after)[0]))))
  }

  predicate OpensASentence(u: Alphabet, rest: string) {
    rest != "" && (u.uppercase(rest[0]) || IsDigit(rest[0]) || IsOpener(rest[0]))
  }

  function TrimTerminators(s: string): string {
    if s != "" && IsTerminator(s[|s| - 1]) then TrimTerminators(s[..|s| - 1]) else s
  }

  /** The run of letters, digits and full stops that `s` ends in. */
  function LastWord(u: Alphabet, s: string): string {
    if s != "" && (u.alphanumeric(s[|s| - 1]) || s[|s| - 1] == '.')
    then LastWord(u, s[..|s| - 1]) + [s[|s| - 1]] else ""
  }

  predicate IsAbbreviation(u: Alphabet, piece: string) {
    var word := LastWord(u, TrimTerminators(piece));
    (|word| == 1 && u.uppercase(word[0])) || IsListedAbbreviation(LowerAscii(word))
  }

  predicate IsABoundary(u: Alphabet, before: string, after: string)
    requires before != ""
  {
    var last := before[|before| - 1];
    var long := CountWords(u, Words(before)) >= MIN_CLAUSE_WORDS && CountWords(u, Words(after)) >= MIN_CLAUSE_WORDS;
    if last == CLAUSE_SEPARATOR then OpensARelativeClause(u, after) && long
    else if IsClauseTerminator(last) then long
    else OpensASentence(u, after) && !IsAbbreviation(u, before)
  }

  /** Whether the loop cuts at `end`, with `next` the end of the white space after it. */
  predicate CutsAt(u: Alphabet, text: string, start: nat, end: nat, next: nat)
    requires start < end <= next <= |text|
  {
    next != end && IsABoundary(u, text[start..end], text[next..])
  }

  /** Nothing that ends the text is a boundary in it. */
  lemma CutsInside(u: Alphabet, text: string, start: nat, end: nat, next: nat)
    requires start < end <= next <= |text|
    ensures CutsAt(u, text, start, end, next) ==> end < next < |text|
  {
    if next == |text| {
      assert text[next..] == "";
      assert Words("") == [];
    }
  }

  // ----- the cut itself

  /** How far a stop goes: a run of sentence stops is one, any other stop is a character. */
  function StopEnd(text: string, cursor: nat): (end: nat)
    requires cursor < |text| && IsStop(text[cursor])
    ensures cursor < end <= |text| && IsStop(text[end - 1])
    decreases |text| - cursor
  {
    if IsTerminator(text[cursor]) && cursor + 1 < |text| && IsTerminator(text[cursor + 1])
    then StopEnd(text, cursor + 1) else cursor + 1
  }

  lemma ResumeIs(text: string, end: nat)
    requires end <= |text|
    ensures var next := |text| - |TrimStart(text[end..])|;
      end <= next && SpaceBetween(text, end, next) && (next < |text| ==> !IsWhitespace(text[next]))
  {
    hide IsWhitespace, TrimStart;
    var rest := text[end..];
    TrimStartIs(rest);
    assert forall i :: end <= i < |text| ==> text[i] == rest[i - end];
  }

  /** Where the text goes on after the white space at `end`. */
  function Resume(text: string, end: nat): (next: nat)
    requires end <= |text|
    ensures end <= next <= |text| && SpaceBetween(text, end, next)
    ensures next < |text| ==> !IsWhitespace(text[next])
  {
    ResumeIs(text, end);
    |text| - |TrimStart(text[end..])|
  }

  /** The place the loop cuts at from `cursor` on, if any: where the piece ends and where the next begins. */
  function NextCut(u: Alphabet, text: string, start: nat, cursor: nat): (r: Option<(nat, nat)>)
    requires start <= cursor <= |text|
    ensures r.Some? ==> cursor < r.value.0 < r.value.1 < |text|
    decreases |text| - cursor
  {
    if cursor == |text| then None
    else if !IsStop(text[cursor]) then NextCut(u, text, start, cursor + 1)
    else
      var end := StopEnd(text, cursor);
      var next := Resume(text, end);
      CutsInside(u, text, start, end, next);
      if !CutsAt(u, text, start, end, next) then NextCut(u, text, start, end) else Some((end, next))
  }

  /** A cut is made behind a stop, takes white space, and leaves none in front of the next piece. */
  lemma {:induction false} NextCutIs(u: Alphabet, text: string, start: nat, cursor: nat)
    requires start <= cursor <= |text| && NextCut(u, text, start, cursor).Some?
    ensures var (end, next) := NextCut(u, text, start, cursor).value;
      end < next < |text| && IsStop(text[end - 1]) && SpaceBetween(text, end, next) && !IsWhitespace(text[next])
    decreases |text| - cursor
  {
    hide IsStop, IsWhitespace, StopEnd, Resume, CutsAt, SpaceBetween;
    if !IsStop(text[cursor]) {
      NextCutIs(u, text, start, cursor + 1);
    } else {
      var end := StopEnd(text, cursor);
      if !CutsAt(u, text, start, end, Resume(text, end)) {
        NextCutIs(u, text, start, end);
      }
    }
  }

  /** `text[from..to]` without the white space around it, when there is more to it than that. */
  function Piece(text: string, from: nat, to: nat): seq<string>
    requires from <= to <= |text|
  {
    if Trim(text[from..to]) == "" then [] else [Trim(text[from..to])]
  }

  /** The pieces of `text[start..]`, when a piece begins at `start`. */
  function SplitFrom(u: Alphabet, text: string, start: nat): seq<string>
    requires start <= |text|
    decreases |text| - start
  {
    var cut := NextCut(u, text, start, start);
    if cut.None? then Piece(text, start, |text|)
    else Piece(text, start, cut.value.0) + SplitFrom(u, text, cut.value.1)
  }

  function Split(u: Alphabet, text: string): seq<string> { SplitFrom(u, text, 0) }

  method SplitSentences(u: Alphabet, text: string) returns (pieces: seq<string>)
    ensures pieces == Split(u, text)
  {
    hide CutsAt, IsStop, Piece, SplitFrom, SpaceBetween, Resume, StopEnd;
    pieces := [];
    var start: nat, cursor: nat := 0, 0;
    while cursor < |text|
      invariant start <= cursor <= |text|
      invariant pieces + SplitFrom(u, text, start) == Split(u, text)
      invariant NextCut(u, text, start, start) == NextCut(u, text, start, cursor)
      decreases |text| - cursor
    {
      if !IsStop(text[cursor]) {
        cursor := cursor + 1;
        continue;
      }
      var end := StopEnd(text, cursor);
      var next := Resume(text, end);
      if !CutsAt(u, text, start, end, next) {
        cursor := end;
        continue;
      }
      SplitStep(u, text, start);
      pieces := pieces + Piece(text, start, end);
      start := next;
      cursor := start;
    }
    SplitStep(u, text, start);
    pieces := pieces + Piece(text, start, |text|);
  }

  // ----- what the cut leaves

  /** The white space between the pieces of `text[start..]`. */
  function GapsFrom(u: Alphabet, text: string, start: nat): seq<string>
    requires start <= |text|
    decreases |text| - start
  {
    var cut := NextCut(u, text, start, start);
    if cut.None? then [] else [text[cut.value.0..cut.value.1]] + GapsFrom(u, text, cut.value.1)
  }

  /** The pieces with the gaps between them. */
  function Weave(pieces: seq<string>, gaps: seq<string>): string
    requires pieces != [] && |gaps| == |pieces| - 1
  {
    if gaps == [] then pieces[0]
    else
      var k := |gaps|;
      Weave(pieces[..k], gaps[..k - 1]) + gaps[k - 1] + pieces[k]
  }

  lemma {:induction false} WeaveCons(p: string, g: string, pieces: seq<string>, gaps: seq<string>)
    requires pieces != [] && |gaps| == |pieces| - 1
    ensures Weave([p] + pieces, [g] + gaps) == p + g + Weave(pieces, gaps)
  {
    var k := |gaps|;
    var all, between := [p] + pieces, [g] + gaps;
    if k == 0 {
      assert all[..1] == [p] && between[..0] == [];
    } else {
      WeaveCons(p, g, pieces[..k], gaps[..k - 1]);
      assert all[..k + 1] == [p] + pieces[..k] && between[..k] == [g] + gaps[..k - 1];
    }
  }

  /** Pieces are not empty, bare of white space at the ends, and stop where they are cut; gaps
    * are white space and not empty. */
  ghost predicate WellCut(pieces: seq<string>, gaps: seq<string>) {
    && pieces != [] && |gaps| == |pieces| - 1
    && (forall i :: 0 <= i < |pieces| ==> pieces[i] != "" && Trimmed(pieces[i]))
    && (forall i :: 0 <= i < |gaps| ==> IsStop(pieces[i][|pieces[i]| - 1]))
    && (forall i :: 0 <= i < |gaps| ==> gaps[i] != "" && AllSpace(gaps[i]))
  }

  lemma StopIsSpaceless(c: char)
    requires IsStop(c)
    ensures !IsWhitespace(c) && c != 'X' && c != 'Q' && !IsDigit(c) && !IsJapaneseTerminator(c)
  {
  }

  lemma WellCutCons(p: string, g: string, pieces: seq<string>, gaps: seq<string>)
    requires WellCut(pieces, gaps)
    requires p != "" && Trimmed(p) && IsStop(p[|p| - 1]) && g != "" && AllSpace(g)
    ensures WellCut([p] + pieces, [g] + gaps)
  {
    var all, between := [p] + pieces, [g] + gaps;
    forall i | 0 <= i < |between| ensures IsStop(all[i][|all[i]| - 1]) && between[i] != "" && AllSpace(between[i]) {
      if i > 0 { assert all[i] == pieces[i - 1] && between[i] == gaps[i - 1]; }
    }
  }

  lemma SplitStep(u: Alphabet, text: string, start: nat)
    requires start <= |text|
    ensures var cut := NextCut(u, text, start, start);
      if cut.None? then SplitFrom(u, text, start) == Piece(text, start, |text|) && GapsFrom(u, text, start) == []
      else
        && SplitFrom(u, text, start) == Piece(text, start, cut.value.0) + SplitFrom(u, text, cut.value.1)
        && GapsFrom(u, text, start) == [text[cut.value.0..cut.value.1]] + GapsFrom(u, text, cut.value.1)
  {
  }

  lemma PieceTrimmed(text: string, from: nat, to: nat)
    requires from < to <= |text| && !IsWhitespace(text[from]) && !IsWhitespace(text[to - 1])
    ensures Piece(text, from, to) == [text[from..to]]
    ensures text[from..to] != "" && Trimmed(text[from..to])
  {
    hide Trim, IsWhitespace;
    assert text[from..to][0] == text[from] && text[from..to][to - from - 1] == text[to - 1];
    TrimTrimmed(text[from..to]);
  }

  /** What one cut adds in front of what the rest of the text gave. */
  lemma CutInFront(text: string, start: nat, end: nat, next: nat, pieces: seq<string>, gaps: seq<string>)
    requires start < end < next < |text| && IsStop(text[end - 1]) && !IsWhitespace(text[start])
    requires SpaceBetween(text, end, next)
    requires WellCut(pieces, gaps) && Weave(pieces, gaps) == text[next..]
    ensures Piece(text, start, end) == [text[start..end]]
    ensures WellCut([text[start..end]] + pieces, [text[end..next]] + gaps)
    ensures Weave([text[start..end]] + pieces, [text[end..next]] + gaps) == text[start..]
  {
    hide Weave, IsWhitespace, Piece;
    var piece, gap := text[start..end], text[end..next];
    StopIsSpaceless(text[end - 1]);
    PieceTrimmed(text, start, end);
    assert piece[|piece| - 1] == text[end - 1];
    WellCutCons(piece, gap, pieces, gaps);
    WeaveCons(piece, gap, pieces, gaps);
    assert text[start..] == piece + gap + text[next..];
  }

  lemma {:induction false} SplitWeavesFrom(u: Alphabet, text: string, start: nat)
    requires start < |text| && !IsWhitespace(text[start]) && !IsWhitespace(text[|text| - 1])
    ensures var pieces, gaps := SplitFrom(u, text, start), GapsFrom(u, text, start);
      WellCut(pieces, gaps) && Weave(pieces, gaps) == text[start..]
    decreases |text| - start
  {
    hide NextCut, SplitFrom, GapsFrom, IsWhitespace, IsStop, Piece;
    SplitStep(u, text, start);
    var cut := NextCut(u, text, start, start);
    if cut.None? {
      PieceTrimmed(text, start, |text|);
    } else {
      NextCutIs(u, text, start, start);
      SplitWeavesFrom(u, text, cut.value.1);
      hide Weave, WellCut;
      CutInFront(text, start, cut.value.0, cut.value.1, SplitFrom(u, text, cut.value.1), GapsFrom(u, text, cut.value.1));
    }
  }

  /** The splitter cuts only white space out, and never inside a piece: woven back with the gaps
    * it left, the pieces are the text. */
  lemma SplitWeaves(u: Alphabet, text: string)
    requires text != "" && Trimmed(text)
    ensures var pieces, gaps := Split(u, text), GapsFrom(u, text, 0);
      WellCut(pieces, gaps) && Weave(pieces, gaps) == text
  {
    SplitWeavesFrom(u, text, 0);
    assert text[0..] == text;
  }

  // ----- the engine's form of a piece, and the way back

  /** What is sent for a piece: itself, but for a comma at its end. */
  function EngineForm(sentence: string): string {
    if sentence != "" && sentence[|sentence| - 1] == CLAUSE_SEPARATOR then sentence[..|sentence| - 1] + "."
    else sentence
  }

  /** `joined` with one more translation behind it. */
  function Append(joined: string, translation: string): string {
    var t := Trim(translation);
    if t == "" then joined
    else if joined != "" && !IsJapaneseTerminator(joined[|joined| - 1]) then joined + " " + t
    else joined + t
  }

  function Join(translations: seq<string>): string {
    if translations == [] then ""
    else Append(Join(translations[..|translations| - 1]), translations[|translations| - 1])
  }

  lemma JoinStep(translations: seq<string>, i: nat)
    requires i < |translations|
    ensures Join(translations[..i + 1]) == Append(Join(translations[..i]), translations[i])
  {
    assert translations[..i + 1][..i] == translations[..i];
  }

  method PushSentence(before: string, translation: string) returns (joined: string)
    ensures joined == Append(before, translation)
  {
    hide Trim;
    joined := before;
    var t := Trim(translation);
    if t == "" {
      return;
    }
    if joined != "" && !IsJapaneseTerminator(joined[|joined| - 1]) {
      joined := joined + " ";
    }
    joined := joined + t;
  }

  method JoinSentences(translations: seq<string>) returns (joined: string)
    ensures joined == Join(translations)
  {
    assert Join([]) == "";
    hide Trim, Join;
    joined := "";
    for i := 0 to |translations|
      invariant joined == Join(translations[..i])
    {
      JoinStep(translations, i);
      joined := PushSentence(joined, translations[i]);
    }
    assert translations[..|translations|] == translations;
  }

  function Spaces(n: nat): (r: seq<string>)
    ensures |r| == n && forall i :: 0 <= i < n ==> r[i] == " "
  {
    seq(n, _ => " ")
  }

  /** Something to say, and no white space around it. */
  predicate Solid(s: string) { s != "" && Trimmed(s) }

  /** A sentence that needs a space behind it to stand apart from the next. */
  predicate WantsSpace(s: string) { s != "" && !IsJapaneseTerminator(s[|s| - 1]) }

  lemma AppendSolid(joined: string, t: string)
    requires Solid(t)
    ensures Append(joined, t) == if WantsSpace(joined) then joined + " " + t else joined + t
    ensures WantsSpace(Append(joined, t)) == WantsSpace(t)
  {
    hide Trim, IsWhitespace, IsJapaneseTerminator;
    TrimTrimmed(t);
  }

  /** Joining puts exactly one space between pieces that stop as the splitter's do. */
  lemma {:induction false} JoinWeaves(pieces: seq<string>)
    requires pieces != []
    requires forall i :: 0 <= i < |pieces| ==> Solid(pieces[i])
    requires forall i :: 0 <= i < |pieces| - 1 ==> WantsSpace(pieces[i])
    ensures Join(pieces) == Weave(pieces, Spaces(|pieces| - 1))
    ensures WantsSpace(Join(pieces)) == WantsSpace(pieces[|pieces| - 1])
  {
    hide Solid, WantsSpace, Append, Weave;
    var k := |pieces| - 1;
    JoinLast(pieces);
    AppendSolid(Join(pieces[..k]), pieces[k]);
    if k == 0 {
      WeaveOne(pieces[0]);
      assert pieces == [pieces[0]] && pieces[..0] == [];
      NothingWantsSpace();
    } else {
      JoinWeaves(pieces[..k]);
      WeaveLast(pieces, Spaces(k));
      assert Spaces(k)[..k - 1] == Spaces(k - 1);
    }
  }

  lemma NothingWantsSpace()
    ensures !WantsSpace("") && Join([]) == "" && forall t: string :: "" + t == t
  {
  }

  lemma JoinLast(pieces: seq<string>)
    requires pieces != []
    ensures Join(pieces) == Append(Join(pieces[..|pieces| - 1]), pieces[|pieces| - 1])
  {
  }

  lemma WeaveOne(p: string)
    ensures Weave([p], []) == p && Spaces(0) == []
  {
  }

  lemma WeaveLast(pieces: seq<string>, gaps: seq<string>)
    requires |pieces| >= 2 && |gaps| == |pieces| - 1
    ensures var k := |gaps|; Weave(pieces, gaps) == Weave(pieces[..k], gaps[..k - 1]) + gaps[k - 1] + pieces[k]
  {
  }

  /** Every gap is one space. */
  predicate SingleSpaced(gaps: seq<string>) {
    forall i :: 0 <= i < |gaps| ==> gaps[i] == " "
  }

  /** A space and a gap, with text behind each, are alike only as the same gap before the same text. */
  lemma GapApart(p: string, gap: string, q: string)
    requires Solid(p) && Solid(q) && SameOrApart(p, q) && gap != "" && AllSpace(gap)
    ensures SameOrApart(" " + p, gap + q)
    ensures " " + p == gap + q <==> gap == " " && p == q
  {
    var s, t := " " + p, gap + q;
    assert s[0] == ' ' && t[0] == gap[0];
    assert s[1] == p[0] && !IsWhitespace(p[0]);
    hide IsWhitespace;
    if gap == " " {
      ApartBehind(" ", p, gap, q);
    } else if |gap| > 1 {
      assert t[1] == gap[1];
    }
  }

  /** Pieces that are the text's own or apart from them, joined by single spaces, give the text exactly
    * when they are its pieces and it has single spaces between them. */
  lemma {:induction false} WeaveEqual(a: seq<string>, b: seq<string>, gaps: seq<string>)
    requires a != [] && |a| == |b| && |gaps| == |a| - 1
    requires forall i :: 0 <= i < |a| ==> Solid(a[i]) && Solid(b[i]) && SameOrApart(a[i], b[i])
    requires forall i :: 0 <= i < |gaps| ==> gaps[i] != "" && AllSpace(gaps[i])
    ensures SameOrApart(Weave(a, Spaces(|gaps|)), Weave(b, gaps))
    ensures Weave(a, Spaces(|gaps|)) == Weave(b, gaps) <==> a == b && SingleSpaced(gaps)
  {
    hide Weave, Solid, SameOrApart, AllSpace;
    var k := |gaps|;
    if k == 0 {
      assert a == [a[0]] && b == [b[0]];
      WeaveOne(a[0]);
      WeaveOne(b[0]);
    } else {
      assert Spaces(k)[..k - 1] == Spaces(k - 1);
      WeaveLast(a, Spaces(k));
      WeaveLast(b, gaps);
      WeaveEqual(a[..k], b[..k], gaps[..k - 1]);
      GapApart(a[k], gaps[k - 1], b[k]);
      var x, y := Weave(a[..k], Spaces(k - 1)), Weave(b[..k], gaps[..k - 1]);
      ApartBehind(x, " " + a[k], y, gaps[k - 1] + b[k]);
      assert x + " " + a[k] == x + (" " + a[k]) && y + gaps[k - 1] + b[k] == y + (gaps[k - 1] + b[k]);
      assert a == a[..k] + [a[k]] && b == b[..k] + [b[k]];
      assert gaps == gaps[..k - 1] + [gaps[k - 1]];
    }
  }

  lemma WeaveEnd(pieces: seq<string>, gaps: seq<string>)
    requires pieces != [] && |gaps| == |pieces| - 1 && pieces[|gaps|] != ""
    ensures var w := Weave(pieces, gaps);
      w != "" && w[|w| - 1] == pieces[|gaps|][|pieces[|gaps|]| - 1]
  {
  }

  // ----- any translations joined

  /** What is left of the translations: those with something in them, trimmed. */
  function Said(translations: seq<string>): seq<string> {
    if translations == [] then []
    else
      var k := |translations| - 1;
      Said(translations[..k]) + if Blank(translations[k]) then [] else [Trim(translations[k])]
  }

  /** Nothing behind a Japanese stop, a space behind anything else. */
  function GapBehind(s: string): string {
    if s != "" && s[|s| - 1] in "\U{3002}\U{FF01}\U{FF1F}\U{FF0E}" then "" else " "
  }

  function GapsBehind(said: seq<string>): (r: seq<string>)
    requires said != []
    ensures |r| == |said| - 1 && forall i :: 0 <= i < |r| ==> r[i] == GapBehind(said[i])
  {
    seq(|said| - 1, i requires 0 <= i < |said| - 1 => GapBehind(said[i]))
  }

  lemma AppendIs(joined: string, t: string)
    ensures Append(joined, t) ==
      if Blank(t) then joined else if joined == "" then Trim(t) else joined + GapBehind(joined) + Trim(t)
  {
    hide Trim;
    assert joined + "" == joined && "" + Trim(t) == Trim(t);
  }

  ghost predicate NoneEmpty(said: seq<string>) { forall i :: 0 <= i < |said| ==> said[i] != "" }

  lemma SaidSomething(translations: seq<string>)
    ensures NoneEmpty(Said(translations))
  {
    hide Trim;
  }

  lemma SaidNext(translations: seq<string>)
    requires translations != []
    ensures var k := |translations| - 1;
      Said(translations) == Said(translations[..k]) + if Blank(translations[k]) then [] else [Trim(translations[k])]
  {
  }

  /** Translations are joined in order, those with nothing in them left out, a space between two unless the
    * first ends in a Japanese stop. */
  lemma {:induction false} JoinIs(translations: seq<string>)
    ensures var said := Said(translations);
      Join(translations) == if said == [] then "" else Weave(said, GapsBehind(said))
  {
    hide Weave, Join, Append, Said, Blank, Trim, GapBehind, GapsBehind;
    if translations == [] {
      NothingSaid();
    } else {
      var k := |translations| - 1;
      JoinIs(translations[..k]);
      JoinLast(translations);
      SaidNext(translations);
      SaidSomething(translations[..k]);
      AppendIs(Join(translations[..k]), translations[k]);
      SaidJoined(Said(translations[..k]), Join(translations[..k]), Trim(translations[k]));
      BlankTrims(translations[k]);
      assert Said(translations[..k]) + [] == Said(translations[..k]);
    }
  }

  lemma NothingSaid()
    ensures Join([]) == "" && Said([]) == []
  {
  }

  lemma BlankTrims(s: string)
    ensures Blank(s) <==> Trim(s) == ""
  {
    hide Trim;
  }

  /** One more of them behind the others. */
  lemma SaidJoined(said: seq<string>, joined: string, t: string)
    requires NoneEmpty(said) && joined == if said == [] then "" else Weave(said, GapsBehind(said))
    ensures said == [] <==> joined == ""
    ensures t != "" ==> Weave(said + [t], GapsBehind(said + [t])) == if joined == "" then t else joined + GapBehind(joined) + t
  {
    hide Weave, GapBehind;
    if said == [] {
      WeaveOne(t);
      assert said + [t] == [t] && GapsBehind([t]) == [];
    } else {
      LastSaid(said);
      OneMoreSaid(said, t);
    }
  }

  lemma LastSaid(said: seq<string>)
    requires said != [] && NoneEmpty(said)
    ensures var w := Weave(said, GapsBehind(said)); w != "" && GapBehind(w) == GapBehind(said[|said| - 1])
  {
    hide Weave, GapBehind, GapsBehind;
    WeaveEnd(said, GapsBehind(said));
    SameGap(Weave(said, GapsBehind(said)), said[|said| - 1]);
  }

  lemma SameGap(s: string, t: string)
    requires s != "" && t != "" && s[|s| - 1] == t[|t| - 1]
    ensures GapBehind(s) == GapBehind(t)
  {
  }

  lemma OneMoreSaid(said: seq<string>, t: string)
    requires said != []
    ensures Weave(said + [t], GapsBehind(said + [t])) == Weave(said, GapsBehind(said)) + GapBehind(said[|said| - 1]) + t
  {
    hide Weave, GapBehind, GapsBehind;
    GapsMore(said, t);
    WeaveMore(said, GapsBehind(said), GapBehind(said[|said| - 1]), t);
  }

  lemma GapsMore(said: seq<string>, t: string)
    requires said != []
    ensures GapsBehind(said + [t]) == GapsBehind(said) + [GapBehind(said[|said| - 1])]
  {
    hide GapBehind;
  }

  lemma WeaveMore(pieces: seq<string>, gaps: seq<string>, g: string, p: string)
    requires pieces != [] && |gaps| == |pieces| - 1
    ensures Weave(pieces + [p], gaps + [g]) == Weave(pieces, gaps) + g + p
  {
    var k := |pieces|;
    assert (pieces + [p])[..k] == pieces && (gaps + [g])[..k - 1] == gaps;
  }
}
