/** Where the splitter cuts: exactly at the places that divide two sentences or clauses. */
module Boundaries {
  import opened Sentence
  import opened Text

  // ----- how many words there are

  ghost predicate SpaceIn(s: string, i: nat, j: nat) {
    exists k :: i < k < j && k < |s| && IsWhitespace(s[k])
  }

  /** A letter or digit in each of as many words. */
  ghost predicate Picks(u: Alphabet, s: string, p: seq<nat>) {
    && (forall i :: 0 <= i < |p| ==> p[i] < |s| && u.alphanumeric(s[p[i]]) && !IsWhitespace(s[p[i]]))
    && forall i :: 0 < i < |p| ==> SpaceIn(s, p[i - 1], p[i])
  }

  /** `s` holds `n` stretches, white space between any two of them, with a letter or digit in each. */
  ghost predicate HasWords(u: Alphabet, s: string, n: nat) {
    exists p :: |p| == n && Picks(u, s, p)
  }

  function Shifted(p: seq<nat>, n: nat): (r: seq<nat>)
    ensures |r| == |p| && forall i :: 0 <= i < |r| ==> r[i] == p[i] + n
  {
    seq(|p|, i requires 0 <= i < |p| => p[i] + n)
  }

  lemma SpaceShifted(s: string, n: nat, i: nat, j: nat)
    requires n <= |s|
    ensures SpaceIn(s[n..], i, j) <==> SpaceIn(s, i + n, j + n)
  {
    if k :| i < k < j && k < |s[n..]| && IsWhitespace(s[n..][k]) { assert s[k + n] == s[n..][k]; }
    if k :| i + n < k < j + n && k < |s| && IsWhitespace(s[k]) { assert s[n..][k - n] == s[k]; }
  }

  lemma PicksShifted(u: Alphabet, s: string, n: nat, p: seq<nat>)
    requires n <= |s|
    ensures Picks(u, s[n..], p) <==> Picks(u, s, Shifted(p, n))
  {
    hide SpaceIn, IsWhitespace;
    forall i | 0 < i < |p| ensures SpaceIn(s[n..], p[i - 1], p[i]) <==> SpaceIn(s, p[i - 1] + n, p[i] + n) {
      SpaceShifted(s, n, p[i - 1], p[i]);
    }
    assert forall i :: 0 <= i < |p| ==> (p[i] < |s[n..]| <==> p[i] + n < |s|);
    assert forall i :: 0 <= i < |p| && p[i] < |s[n..]| ==> s[n..][p[i]] == s[p[i] + n];
    var q := Shifted(p, n);
    if Picks(u, s, q) {
      assert forall i :: 0 <= i < |p| ==> q[i] == p[i] + n;
      assert forall i :: 0 < i < |p| ==> SpaceIn(s, q[i - 1], q[i]);
    }
  }

  lemma {:induction false} WordLengthIs(t: string)
    ensures var n := WordLength(t);
      (forall i :: 0 <= i < n ==> !IsWhitespace(t[i])) && (n < |t| ==> IsWhitespace(t[n]))
  {
    hide IsWhitespace;
    if t != "" && !IsWhitespace(t[0]) {
      WordLengthIs(t[1..]);
      assert forall i :: 1 <= i < |t| ==> t[i] == t[1..][i - 1];
    }
  }

  /** The first word of `s` is `s[from..to]`, with white space in front of it. */
  ghost predicate FirstWord(s: string, from: nat, to: nat) {
    && from < to <= |s| && SpaceBetween(s, 0, from)
    && (forall i :: from <= i < to ==> !IsWhitespace(s[i]))
    && (to < |s| ==> IsWhitespace(s[to]))
  }

  lemma WordsAre(s: string) returns (from: nat, to: nat)
    ensures Words(s) == [] ==> AllSpace(s)
    ensures Words(s) != [] ==> FirstWord(s, from, to) && Words(s) == [s[from..to]] + Words(s[to..])
  {
    hide IsWhitespace, TrimStart;
    TrimStartIs(s);
    var t := TrimStart(s);
    WordLengthIs(t);
    from := |s| - |t|;
    to := from + WordLength(t);
    if t != "" {
      assert forall i :: from <= i < |s| ==> s[i] == t[i - from];
      assert t[..to - from] == s[from..to] && t[to - from..] == s[to..];
    }
  }

  /** Behind the first word there is one word less to find, or as many if that has no letter in it. */
  lemma WordTaken(u: Alphabet, s: string, from: nat, to: nat, n: nat)
    requires FirstWord(s, from, to)
    ensures (exists i :: from <= i < to && u.alphanumeric(s[i])) ==>
      (HasWords(u, s, n + 1) <==> HasWords(u, s[to..], n))
    ensures !(exists i :: from <= i < to && u.alphanumeric(s[i])) ==> (HasWords(u, s, n) <==> HasWords(u, s[to..], n))
  {
    hide IsWhitespace;
    if HasWords(u, s[to..], n) { WordBefore(u, s, from, to, n); }
    if HasWords(u, s, n + 1) && exists i :: from <= i < to && u.alphanumeric(s[i]) {
      var p :| |p| == n + 1 && Picks(u, s, p);
      AllBehind(u, s, from, to, p);
      PicksBehind(u, s, to, p[1..]);
    }
    if HasWords(u, s, n) && !exists i :: from <= i < to && u.alphanumeric(s[i]) {
      var p :| |p| == n && Picks(u, s, p);
      AllBehind(u, s, from, to, p);
      PicksBehind(u, s, to, p);
    }
  }

  lemma WordBefore(u: Alphabet, s: string, from: nat, to: nat, n: nat)
    requires FirstWord(s, from, to) && HasWords(u, s[to..], n)
    ensures HasWords(u, s, n)
    ensures (exists i :: from <= i < to && u.alphanumeric(s[i])) ==> HasWords(u, s, n + 1)
  {
    hide IsWhitespace;
    var q :| |q| == n && Picks(u, s[to..], q);
    PicksShifted(u, s, to, q);
    var p := Shifted(q, to);
    if i :| from <= i < to && u.alphanumeric(s[i]) {
      if n > 0 {
        assert s[p[0]] == s[to..][q[0]];
        assert p[0] != to && s[to] == s[to..][0];
        assert SpaceIn(s, i, p[0]);
      }
      var r := [i] + p;
      assert forall k :: 0 < k < |r| ==> r[k] == p[k - 1];
      forall k | 0 < k < |r| ensures SpaceIn(s, r[k - 1], r[k]) {
        if k > 1 { assert SpaceIn(s, p[k - 2], p[k - 1]); }
      }
      assert Picks(u, s, r);
    }
  }

  /** Only the first of the letters picked can be in the first word. */
  lemma AllBehind(u: Alphabet, s: string, from: nat, to: nat, p: seq<nat>)
    requires FirstWord(s, from, to) && Picks(u, s, p)
    ensures forall k :: 0 < k < |p| ==> to <= p[k]
    ensures p != [] && !(exists i :: from <= i < to && u.alphanumeric(s[i])) ==> to <= p[0]
  {
    hide IsWhitespace;
    if p != [] { assert from <= p[0] < to ==> u.alphanumeric(s[p[0]]); }
    forall k | 0 < k < |p| ensures to <= p[k] {
      assert SpaceIn(s, p[k - 1], p[k]);
      var j :| p[k - 1] < j < p[k] && j < |s| && IsWhitespace(s[j]);
      assert p[k - 1] >= from;
    }
  }

  lemma PicksBehind(u: Alphabet, s: string, to: nat, p: seq<nat>)
    requires to <= |s| && Picks(u, s, p)
    requires forall k :: 0 <= k < |p| ==> to <= p[k]
    ensures HasWords(u, s[to..], |p|)
  {
    hide IsWhitespace, Picks;
    var q := seq(|p|, k requires 0 <= k < |p| => p[k] - to);
    assert Shifted(q, to) == p;
    PicksShifted(u, s, to, q);
  }

  /** Counting finds them. */
  lemma {:induction false} CountIs(u: Alphabet, s: string, n: nat)
    ensures CountWords(u, Words(s)) >= n <==> HasWords(u, s, n)
    decreases |s|
  {
    hide Words, HasWords;
    var from, to := WordsAre(s);
    if Words(s) == [] {
      NoWords(u, s, n);
    } else {
      CountNext(u, s[from..to], Words(s[to..]));
      CountIs(u, s[to..], n);
      if n > 0 { CountIs(u, s[to..], n - 1); }
      WordTaken(u, s, from, to, n);
      if n > 0 { WordTaken(u, s, from, to, n - 1); }
      LetterIn(u, s, from, to);
      if n == 0 { NoneNeeded(u, s); }
    }
  }

  lemma LetterIn(u: Alphabet, s: string, from: nat, to: nat)
    requires from <= to <= |s|
    ensures (exists i :: from <= i < to && u.alphanumeric(s[i])) <==>
      exists i :: 0 <= i < |s[from..to]| && u.alphanumeric(s[from..to][i])
  {
    if i :| from <= i < to && u.alphanumeric(s[i]) { assert s[from..to][i - from] == s[i]; }
  }

  lemma NoneNeeded(u: Alphabet, s: string)
    ensures HasWords(u, s, 0)
  {
    assert Picks(u, s, []);
  }

  lemma NoWords(u: Alphabet, s: string, n: nat)
    requires AllSpace(s)
    ensures HasWords(u, s, n) <==> n == 0
  {
    NoneNeeded(u, s);
    hide IsWhitespace;
    if n > 0 {
      forall p: seq<nat> | |p| == n ensures !Picks(u, s, p) { assert p[0] < |s| ==> IsWhitespace(s[p[0]]); }
    }
  }

  lemma CountNext(u: Alphabet, word: string, rest: seq<string>)
    ensures CountWords(u, [word] + rest) ==
      CountWords(u, rest) + if exists i :: 0 <= i < |word| && u.alphanumeric(word[i]) then 1 else 0
  {
    assert ([word] + rest)[1..] == rest;
  }

  // ----- words that are spelled so

  /** `w` is `k`, small letters or capitals. */
  predicate Spelled(w: string, k: string) {
    |w| == |k| && forall i :: 0 <= i < |k| ==> w[i] == k[i] || ('A' <= w[i] <= 'Z' && w[i] as int + 32 == k[i] as int)
  }

  predicate Small(k: string) { forall i :: 0 <= i < |k| ==> !('A' <= k[i] <= 'Z') }

  lemma LowerIs(w: string, k: string)
    requires Small(k)
    ensures LowerAscii(w) == k <==> Spelled(w, k)
  {
    if Spelled(w, k) { assert LowerAscii(w) == k; }
  }

  ghost predicate SpelledAny(w: string, words: set<string>) { exists k :: k in words && Spelled(w, k) }

  function Relatives(): set<string> { {"which", "who", "whom", "whose", "where"} }

  function Abbreviations(): set<string> {
    {"e.g", "i.e", "etc", "vs", "cf", "al", "approx", "resp", "dr", "mr", "mrs", "ms", "prof", "st"}
  }

  lemma RelativeIs(w: string)
    ensures IsRelativeOpener(LowerAscii(w)) <==> SpelledAny(w, Relatives())
  {
    hide LowerAscii, Spelled;
    var l := LowerAscii(w);
    assert IsRelativeOpener(l) <==> l in Relatives();
    forall k | k in Relatives() ensures l == k <==> Spelled(w, k) { LowerIs(w, k); }
  }

  lemma AbbreviationIs(w: string)
    ensures IsListedAbbreviation(LowerAscii(w)) <==> SpelledAny(w, Abbreviations())
  {
    hide LowerAscii, Spelled;
    var l := LowerAscii(w);
    assert IsListedAbbreviation(l) <==> l in Abbreviations();
    forall k | k in Abbreviations() ensures l == k <==> Spelled(w, k) { LowerIs(w, k); }
  }

  // ----- a relative clause

  /** `s[a..b]` is `s[..end]` without what is no letter or digit at its ends. */
  ghost predicate Core(u: Alphabet, s: string, a: nat, b: nat, end: nat) {
    && a <= b <= end <= |s|
    && (forall i :: 0 <= i < a ==> !u.alphanumeric(s[i])) && (forall i :: b <= i < end ==> !u.alphanumeric(s[i]))
    && (a < b ==> u.alphanumeric(s[a]) && u.alphanumeric(s[b - 1]))
  }

  /** The first word of `s`, bare of quotes and brackets, opens a relative clause. */
  ghost predicate OpensRelative(u: Alphabet, s: string) {
    exists a: nat, b: nat, end: nat ::
      a <= b <= |s| && FirstWord(s, 0, end) && Core(u, s, a, b, end) && SpelledAny(s[a..b], Relatives())
  }

  lemma {:induction false} StripFrontIs(u: Alphabet, s: string)
    ensures var r := StripFront(u, s);
      && |r| <= |s| && r == s[|s| - |r|..]
      && (forall i :: 0 <= i < |s| - |r| ==> !u.alphanumeric(s[i])) && (r != "" ==> u.alphanumeric(r[0]))
  {
    if s != "" && !u.alphanumeric(s[0]) {
      StripFrontIs(u, s[1..]);
      assert forall i :: 1 <= i < |s| ==> s[i] == s[1..][i - 1];
    }
  }

  lemma {:induction false} StripBackIs(u: Alphabet, s: string)
    ensures var r := StripBack(u, s);
      && r <= s
      && (forall i :: |r| <= i < |s| ==> !u.alphanumeric(s[i])) && (r != "" ==> u.alphanumeric(r[|r| - 1]))
  {
    if s != "" && !u.alphanumeric(s[|s| - 1]) { StripBackIs(u, s[..|s| - 1]); }
  }

  lemma CoreIs(u: Alphabet, s: string, end: nat) returns (a: nat, b: nat)
    requires end <= |s|
    ensures a <= b <= |s| && Core(u, s, a, b, end) && StripBack(u, StripFront(u, s[..end])) == s[a..b]
  {
    hide StripFront, StripBack;
    StripFrontIs(u, s[..end]);
    var front := StripFront(u, s[..end]);
    StripBackIs(u, front);
    var core := StripBack(u, front);
    a := end - |front|;
    b := a + |core|;
    assert forall i :: a <= i < end ==> s[i] == front[i - a];
    assert forall i :: 0 <= i < a ==> s[i] == s[..end][i];
    assert core == front[..|core|] == s[a..b];
  }

  lemma OneCore(u: Alphabet, s: string, a: nat, b: nat, c: nat, d: nat, end: nat)
    requires Core(u, s, a, b, end) && Core(u, s, c, d, end)
    ensures s[a..b] == s[c..d]
  {
    if a < b || c < d { assert a == c && b == d; }
  }

  lemma OneFirstWord(s: string, a: nat, b: nat, c: nat, d: nat)
    requires FirstWord(s, a, b) && FirstWord(s, c, d)
    ensures a == c && b == d
  {
    hide IsWhitespace;
    assert !IsWhitespace(s[a]) && !IsWhitespace(s[c]);
    assert a == c;
  }

  lemma RelativeClauseIs(u: Alphabet, s: string)
    requires s != "" && !IsWhitespace(s[0])
    ensures OpensARelativeClause(u, s) <==> OpensRelative(u, s)
  {
    hide Words, IsWhitespace, LowerAscii, SpelledAny, IsRelativeOpener, Core, StripFront, StripBack;
    var from, to := WordsAre(s);
    assert !IsWhitespace(s[0]) && Words(s) != [] && from == 0;
    assert s[0..to] == s[..to];
    var a, b := CoreIs(u, s, to);
    RelativeIs(s[a..b]);
    if OpensRelative(u, s) {
      var c: nat, d: nat, end: nat :|
        c <= d <= |s| && FirstWord(s, 0, end) && Core(u, s, c, d, end) && SpelledAny(s[c..d], Relatives());
      OneFirstWord(s, 0, to, 0, end);
      OneCore(u, s, a, b, c, d, to);
    }
  }

  // ----- an abbreviation

  /** `s[a..b]` is the run of letters, digits and full stops that `s` ends in, but for the stops at its end. */
  ghost predicate LastRun(u: Alphabet, s: string, a: nat, b: nat) {
    && a <= b <= |s|
    && (forall i :: b <= i < |s| ==> s[i] in ".!?") && (b > 0 ==> s[b - 1] !in ".!?")
    && (forall i :: a <= i < b ==> InRun(u, s[i])) && (a > 0 ==> !InRun(u, s[a - 1]))
  }

  /** What `s` ends in, before its stops, is one capital or a listed abbreviation. */
  ghost predicate EndsAbbreviated(u: Alphabet, s: string) {
    exists a: nat, b: nat :: a <= b <= |s| && LastRun(u, s, a, b)
      && ((b == a + 1 && u.uppercase(s[a])) || SpelledAny(s[a..b], Abbreviations()))
  }

  lemma {:induction false} TrimTerminatorsIs(s: string)
    ensures var r := TrimTerminators(s);
      r <= s && (forall i :: |r| <= i < |s| ==> s[i] in ".!?") && (r != "" ==> r[|r| - 1] !in ".!?")
  {
    if s != "" && IsTerminator(s[|s| - 1]) { TrimTerminatorsIs(s[..|s| - 1]); }
  }

  /** A letter, a digit or a full stop. */
  predicate InRun(u: Alphabet, c: char) { u.alphanumeric(c) || c == '.' }

  lemma LastWordNext(u: Alphabet, s: string)
    requires s != ""
    ensures LastWord(u, s) == if InRun(u, s[|s| - 1]) then LastWord(u, s[..|s| - 1]) + [s[|s| - 1]] else ""
  {
  }

  lemma {:induction false} LastWordIs(u: Alphabet, s: string)
    ensures var r := LastWord(u, s);
      && |r| <= |s| && (forall i :: |s| - |r| <= i < |s| ==> r[i - |s| + |r|] == s[i] && InRun(u, s[i]))
      && (|r| < |s| ==> !InRun(u, s[|s| - |r| - 1]))
  {
    hide LastWord, InRun;
    if s == "" {
      NoLastWord(u);
    } else {
      LastWordNext(u, s);
      var k := |s| - 1;
      if InRun(u, s[k]) { LastWordIs(u, s[..k]); }
    }
  }

  lemma NoLastWord(u: Alphabet)
    ensures LastWord(u, "") == ""
  {
  }

  lemma LastRunIs(u: Alphabet, s: string) returns (a: nat, b: nat)
    ensures a <= b <= |s| && LastRun(u, s, a, b) && LastWord(u, TrimTerminators(s)) == s[a..b]
  {
    hide LastWord, TrimTerminators;
    TrimTerminatorsIs(s);
    var t := TrimTerminators(s);
    LastWordIs(u, t);
    var r := LastWord(u, t);
    b := |t|;
    a := b - |r|;
    assert r == s[a..b];
  }

  lemma OneLastRun(u: Alphabet, s: string, a: nat, b: nat, c: nat, d: nat)
    requires LastRun(u, s, a, b) && LastRun(u, s, c, d)
    ensures a == c && b == d
  {
    assert !(b < d) && !(d < b);
    assert !(a < c) && !(c < a);
  }

  lemma AbbreviatedIs(u: Alphabet, s: string)
    ensures IsAbbreviation(u, s) <==> EndsAbbreviated(u, s)
  {
    hide LastWord, TrimTerminators, LowerAscii, SpelledAny, LastRun, IsListedAbbreviation;
    var a, b := LastRunIs(u, s);
    AbbreviationIs(s[a..b]);
    if EndsAbbreviated(u, s) {
      var c: nat, d: nat :| c <= d <= |s| && LastRun(u, s, c, d)
        && ((d == c + 1 && u.uppercase(s[c])) || SpelledAny(s[c..d], Abbreviations()));
      OneLastRun(u, s, a, b, c, d);
    }
  }

  // ----- what divides

  /** A sentence or a clause ends with `before`, whose last character is a stop, and another begins with `after`. */
  ghost predicate Divides(u: Alphabet, before: string, after: string)
    requires before != ""
  {
    var stop := before[|before| - 1];
    && after != ""
    && (stop in ".!?" ==>
          && (u.uppercase(after[0]) || after[0] in "0123456789" || after[0] in "`\"'([{*")
          && !EndsAbbreviated(u, before))
    && (stop in ";:," ==> HasWords(u, before, 4) && HasWords(u, after, 4))
    && (stop == ',' ==> OpensRelative(u, after))
  }

  lemma BoundaryIs(u: Alphabet, before: string, after: string)
    requires before != "" && before[|before| - 1] in ".!?;:,"
    requires after == "" || !IsWhitespace(after[0])
    ensures IsABoundary(u, before, after) <==> Divides(u, before, after)
  {
    hide OpensARelativeClause, OpensRelative, CountWords, Words, HasWords, IsAbbreviation, EndsAbbreviated, IsWhitespace;
    CountIs(u, before, 4);
    CountIs(u, after, 4);
    AbbreviatedIs(u, before);
    if after == "" { NothingOpens(u); } else { RelativeClauseIs(u, after); }
  }

  lemma NothingOpens(u: Alphabet)
    ensures !OpensARelativeClause(u, "") && CountWords(u, Words("")) == 0
  {
    assert TrimStart("") == "";
  }

  // ----- where the cuts are

  /** A stop run ends in front of `end`: a run of full stops and marks is one, any other stop one by itself. */
  predicate StopEnds(text: string, end: nat) {
    && 0 < end <= |text| && text[end - 1] in ".!?;:,"
    && !(text[end - 1] in ".!?" && end < |text| && text[end] in ".!?")
  }

  /** Of the piece that begins at `start`: a stop ends it at `end`, white space alone stands between that and
    * `next`, and it divides what is in front of it from what is behind. */
  ghost predicate CutPlace(u: Alphabet, text: string, start: nat, end: nat, next: nat) {
    && start < end < next < |text| && StopEnds(text, end)
    && SpaceBetween(text, end, next) && !IsWhitespace(text[next])
    && Divides(u, text[start..end], text[next..])
  }

  /** No place in `text[from..to]` is one. */
  ghost predicate NoPlace(u: Alphabet, text: string, start: nat, from: nat, to: nat) {
    forall end: nat, next: nat :: from < end < to ==> !CutPlace(u, text, start, end, next)
  }

  lemma StopIs(c: char)
    ensures IsStop(c) <==> c in ".!?;:,"
    ensures IsTerminator(c) <==> c in ".!?"
  {
  }

  lemma {:induction false} StopEndIs(text: string, cursor: nat)
    requires cursor < |text| && IsStop(text[cursor])
    ensures var end := StopEnd(text, cursor);
      StopEnds(text, end) && forall e :: cursor < e < end ==> !StopEnds(text, e)
    decreases |text| - cursor
  {
    StopIs(text[cursor]);
    if cursor + 1 < |text| { StopIs(text[cursor + 1]); }
    if IsTerminator(text[cursor]) && cursor + 1 < |text| && IsTerminator(text[cursor + 1]) {
      StopEndIs(text, cursor + 1);
    }
  }

  /** Where the white space behind `end` ends is settled by the text. */
  lemma CutsAtIs(u: Alphabet, text: string, start: nat, end: nat)
    requires start < end <= |text| && StopEnds(text, end)
    ensures var next := Resume(text, end);
      && (CutsAt(u, text, start, end, next) <==> CutPlace(u, text, start, end, next))
      && forall other: nat :: CutPlace(u, text, start, end, other) ==> other == next
  {
    hide IsABoundary, Divides, IsWhitespace, Resume;
    var next := Resume(text, end);
    CutsInside(u, text, start, end, next);
    assert text[start..end][end - start - 1] == text[end - 1];
    if next < |text| { assert text[next..][0] == text[next]; }
    BoundaryIs(u, text[start..end], text[next..]);
    forall other: nat | CutPlace(u, text, start, end, other) ensures other == next {
      assert !(other < next) && !(next < other);
    }
  }

  /** The next cut is at the first place that is one. */
  lemma {:induction false} NextCutExactly(u: Alphabet, text: string, start: nat, cursor: nat)
    requires start <= cursor <= |text|
    ensures var cut := NextCut(u, text, start, cursor);
      if cut.None? then NoPlace(u, text, start, cursor, |text|)
      else CutPlace(u, text, start, cut.value.0, cut.value.1) && NoPlace(u, text, start, cursor, cut.value.0)
    decreases |text| - cursor
  {
    hide CutPlace, CutsAt, Resume, StopEnd;
    if cursor < |text| {
      if !IsStop(text[cursor]) {
        NextCutExactly(u, text, start, cursor + 1);
        NoStop(u, text, start, cursor);
      } else {
        StopEndIs(text, cursor);
        var end := StopEnd(text, cursor);
        CutsAtIs(u, text, start, end);
        NoneWithin(u, text, start, cursor, end);
        if !CutsAt(u, text, start, end, Resume(text, end)) { NextCutExactly(u, text, start, end); }
      }
    }
  }

  lemma NoStop(u: Alphabet, text: string, start: nat, cursor: nat)
    requires cursor < |text| && !IsStop(text[cursor])
    ensures NoPlace(u, text, start, cursor, cursor + 2)
  {
    StopIs(text[cursor]);
    hide Divides;
  }

  lemma NoneWithin(u: Alphabet, text: string, start: nat, cursor: nat, end: nat)
    requires forall e :: cursor < e < end ==> !StopEnds(text, e)
    ensures NoPlace(u, text, start, cursor, end)
  {
    hide Divides, StopEnds;
  }

  /** Where each piece begins and ends, given the cuts. */
  function From(cuts: seq<(nat, nat)>, k: nat): nat
    requires k <= |cuts|
  {
    if k == 0 then 0 else cuts[k - 1].1
  }

  function To(text: string, cuts: seq<(nat, nat)>, k: nat): nat
    requires k <= |cuts|
  {
    if k == |cuts| then |text| else cuts[k].0
  }

  /** The text is cut at exactly the places that divide it: each cut is one, and no piece holds another. */
  ghost predicate Cutting(u: Alphabet, text: string, cuts: seq<(nat, nat)>) {
    && (forall k :: 0 <= k < |cuts| ==> CutPlace(u, text, From(cuts, k), cuts[k].0, cuts[k].1))
    && (forall k :: 0 <= k <= |cuts| ==> NoPlace(u, text, From(cuts, k), From(cuts, k), To(text, cuts, k)))
  }

  lemma CutOf(u: Alphabet, text: string, cuts: seq<(nat, nat)>, k: nat)
    requires Cutting(u, text, cuts) && k < |cuts|
    ensures CutPlace(u, text, From(cuts, k), cuts[k].0, cuts[k].1)
    ensures From(cuts, k) < cuts[k].0 < cuts[k].1 < |text|
    ensures NoPlace(u, text, From(cuts, k), From(cuts, k), cuts[k].0)
  {
    hide Divides;
    assert To(text, cuts, k) == cuts[k].0;
  }

  lemma NoMore(u: Alphabet, text: string, cuts: seq<(nat, nat)>)
    requires Cutting(u, text, cuts)
    ensures NoPlace(u, text, From(cuts, |cuts|), From(cuts, |cuts|), |text|)
  {
    hide CutPlace;
    assert To(text, cuts, |cuts|) == |text|;
  }

  /** There is only one way to cut so. */
  lemma OneCutting(u: Alphabet, text: string, a: seq<(nat, nat)>, b: seq<(nat, nat)>)
    requires Cutting(u, text, a) && Cutting(u, text, b)
    ensures a == b
  {
    hide CutPlace, Cutting;
    var n := if |a| < |b| then |a| else |b|;
    SameCuts(u, text, a, b, n);
    assert From(a, n) == From(b, n);
    if |a| < |b| {
      CutOf(u, text, b, n);
      NoMore(u, text, a);
    } else if |b| < |a| {
      CutOf(u, text, a, n);
      NoMore(u, text, b);
    }
  }

  lemma {:induction false} SameCuts(u: Alphabet, text: string, a: seq<(nat, nat)>, b: seq<(nat, nat)>, n: nat)
    requires Cutting(u, text, a) && Cutting(u, text, b) && n <= |a| && n <= |b|
    ensures forall k :: 0 <= k < n ==> a[k] == b[k]
  {
    hide CutPlace, Cutting, NoPlace;
    if n > 0 {
      SameCuts(u, text, a, b, n - 1);
      var k := n - 1;
      assert From(a, k) == From(b, k);
      CutOf(u, text, a, k);
      CutOf(u, text, b, k);
      SameNext(u, text, From(a, k), a[k], b[k]);
    }
  }

  lemma SameNext(u: Alphabet, text: string, start: nat, a: (nat, nat), b: (nat, nat))
    requires CutPlace(u, text, start, a.0, a.1) && NoPlace(u, text, start, start, a.0)
    requires CutPlace(u, text, start, b.0, b.1) && NoPlace(u, text, start, start, b.0)
    ensures a == b
  {
    hide Divides, IsWhitespace, StopEnds;
    assert a.0 == b.0;
    assert !IsWhitespace(text[a.1]) && !IsWhitespace(text[b.1]);
    assert a.1 == b.1;
  }

  /** The cuts the splitter makes from `start` on. */
  function CutsFrom(u: Alphabet, text: string, start: nat): seq<(nat, nat)>
    requires start <= |text|
    decreases |text| - start
  {
    var cut := NextCut(u, text, start, start);
    if cut.None? then [] else [cut.value] + CutsFrom(u, text, cut.value.1)
  }

  lemma CutsNext(u: Alphabet, text: string, start: nat)
    requires start <= |text|
    ensures var cut := NextCut(u, text, start, start);
      CutsFrom(u, text, start) == if cut.None? then [] else [cut.value] + CutsFrom(u, text, cut.value.1)
  {
  }

  /** The same, of the text from `start` on. */
  ghost predicate CuttingFrom(u: Alphabet, text: string, start: nat, cuts: seq<(nat, nat)>)
    decreases |cuts|
  {
    if cuts == [] then NoPlace(u, text, start, start, |text|)
    else
      && CutPlace(u, text, start, cuts[0].0, cuts[0].1) && NoPlace(u, text, start, start, cuts[0].0)
      && CuttingFrom(u, text, cuts[0].1, cuts[1..])
  }

  lemma {:induction false} CutsAre(u: Alphabet, text: string, start: nat)
    requires start <= |text|
    ensures CuttingFrom(u, text, start, CutsFrom(u, text, start))
    decreases |text| - start
  {
    hide CutPlace, NextCut, CutsFrom, NoPlace;
    CutsNext(u, text, start);
    NextCutExactly(u, text, start, start);
    var cut := NextCut(u, text, start, start);
    if cut.Some? {
      CutsAre(u, text, cut.value.1);
      assert ([cut.value] + CutsFrom(u, text, cut.value.1))[1..] == CutsFrom(u, text, cut.value.1);
    }
  }

  /** Place `k` of the cuts from `start` on. */
  lemma {:induction false} CuttingAt(u: Alphabet, text: string, start: nat, cuts: seq<(nat, nat)>, k: nat)
    requires CuttingFrom(u, text, start, cuts) && k <= |cuts|
    ensures var from := if k == 0 then start else cuts[k - 1].1;
      && (k < |cuts| ==> CutPlace(u, text, from, cuts[k].0, cuts[k].1))
      && NoPlace(u, text, from, from, To(text, cuts, k))
    decreases |cuts|
  {
    hide CutPlace, NoPlace;
    if k > 0 {
      CuttingAt(u, text, cuts[0].1, cuts[1..], k - 1);
      assert k < |cuts| ==> cuts[k] == cuts[1..][k - 1];
      assert k > 1 ==> cuts[k - 1] == cuts[1..][k - 2];
    }
  }

  /** The pieces between the cuts from `start` on, trimmed. */
  ghost predicate PiecesBetween(text: string, start: nat, cuts: seq<(nat, nat)>, pieces: seq<string>) {
    && |pieces| == |cuts| + 1
    && forall k :: 0 <= k <= |cuts| ==>
         var from := if k == 0 then start else cuts[k - 1].1;
         from <= To(text, cuts, k) <= |text| && pieces[k] == Trim(text[from..To(text, cuts, k)])
  }

  lemma PieceIs(text: string, from: nat, to: nat)
    requires from <= to <= |text| && exists i :: from <= i < to && !IsWhitespace(text[i])
    ensures Piece(text, from, to) == [Trim(text[from..to])]
  {
    hide Trim, IsWhitespace;
    BlankIsAllSpace(text[from..to]);
    var i :| from <= i < to && !IsWhitespace(text[i]);
    assert text[from..to][i - from] == text[i];
  }

  lemma {:induction false} PiecesAre(u: Alphabet, text: string, start: nat)
    requires start <= |text| && exists i :: start <= i < |text| && !IsWhitespace(text[i])
    ensures PiecesBetween(text, start, CutsFrom(u, text, start), SplitFrom(u, text, start))
    decreases |text| - start
  {
    hide NextCut, CutsFrom, SplitFrom, Trim, IsWhitespace, IsStop, SpaceBetween, Piece, CutPlace;
    CutsNext(u, text, start);
    SplitStep(u, text, start);
    NextCutExactly(u, text, start, start);
    var cut := NextCut(u, text, start, start);
    if cut.None? {
      PieceIs(text, start, |text|);
    } else {
      CutHasText(u, text, start, cut.value);
      PieceIs(text, start, cut.value.0);
      PiecesAre(u, text, cut.value.1);
      OnePieceMore(text, start, cut.value, CutsFrom(u, text, cut.value.1), SplitFrom(u, text, cut.value.1));
    }
  }

  lemma CutHasText(u: Alphabet, text: string, start: nat, cut: (nat, nat))
    requires CutPlace(u, text, start, cut.0, cut.1)
    ensures start < cut.0 < cut.1 < |text| && !IsWhitespace(text[cut.0 - 1]) && !IsWhitespace(text[cut.1])
  {
    StopIs(text[cut.0 - 1]);
    StopIsSpaceless(text[cut.0 - 1]);
    hide Divides;
  }

  lemma OnePieceMore(text: string, start: nat, cut: (nat, nat), cuts: seq<(nat, nat)>, pieces: seq<string>)
    requires start < cut.0 < cut.1 < |text| && PiecesBetween(text, cut.1, cuts, pieces)
    ensures PiecesBetween(text, start, [cut] + cuts, [Trim(text[start..cut.0])] + pieces)
  {
    hide Trim;
    var more, all := [cut] + cuts, [Trim(text[start..cut.0])] + pieces;
    forall k | 0 <= k <= |more|
      ensures var from := if k == 0 then start else more[k - 1].1;
        from <= To(text, more, k) <= |text| && all[k] == Trim(text[from..To(text, more, k)])
    {
      if k > 0 { assert To(text, more, k) == To(text, cuts, k - 1) && all[k] == pieces[k - 1]; }
    }
  }

  /** Text is split at exactly the places that divide it, and nowhere else; each piece is what stands between
    * two of them, trimmed. Text that is all white space gives no piece. */
  lemma SplitsExactly(u: Alphabet, text: string)
    ensures Blank(text) ==> Split(u, text) == []
    ensures !Blank(text) ==> exists cuts :: Cutting(u, text, cuts) && PiecesBetween(text, 0, cuts, Split(u, text))
  {
    hide NextCut, CutsFrom, SplitFrom, Trim, IsWhitespace, CutPlace, NoPlace, PiecesBetween;
    BlankIsAllSpace(text);
    var cuts := CutsFrom(u, text, 0);
    CutsAre(u, text, 0);
    if Blank(text) {
      BlankSplits(u, text);
    } else {
      PiecesAre(u, text, 0);
      forall k | 0 <= k <= |cuts|
        ensures k < |cuts| ==> CutPlace(u, text, From(cuts, k), cuts[k].0, cuts[k].1)
        ensures NoPlace(u, text, From(cuts, k), From(cuts, k), To(text, cuts, k))
      {
        CuttingAt(u, text, 0, cuts, k);
      }
      assert Cutting(u, text, cuts);
    }
  }

  lemma BlankSplits(u: Alphabet, text: string)
    requires AllSpace(text) && Blank(text)
    ensures Split(u, text) == []
  {
    hide NextCut, Trim, IsWhitespace, IsStop;
    SplitStep(u, text, 0);
    var cut := NextCut(u, text, 0, 0);
    if cut.Some? { NextCutIs(u, text, 0, 0); }
    assert text[0..|text|] == text;
  }
}
