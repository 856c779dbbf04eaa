/** Text as a sequence of Unicode scalar values, and the string operations the pipeline uses. */
module Text {

  /** Unicode's White_Space property, which is what `char::is_whitespace` answers. */
  predicate IsWhitespace(c: char) {
    || '\t' <= c <= '\r' || c == ' ' || c == '\U{85}' || c == '\U{A0}' || c == '\U{1680}'
    || '\U{2000}' <= c <= '\U{200A}' || c == '\U{2028}' || c == '\U{2029}' || c == '\U{202F}'
    || c == '\U{205F}' || c == '\U{3000}'
  }

  predicate IsDigit(c: char) { '0' <= c <= '9' }

  predicate IsAsciiLetter(c: char) { 'a' <= c <= 'z' || 'A' <= c <= 'Z' }

  /** The characters of each kind, by their code points. */
  lemma CharactersAre(c: char)
    ensures IsWhitespace(c) <==>
      c as int in {9, 10, 11, 12, 13, 32, 133, 160, 5760, 8192, 8193, 8194, 8195, 8196, 8197, 8198, 8199, 8200, 8201,
                   8202, 8232, 8233, 8239, 8287, 12288}
    ensures IsDigit(c) <==> 48 <= c as int < 58
    ensures IsAsciiLetter(c) <==> 65 <= c as int < 91 || 97 <= c as int < 123
  {
  }

  /** `s` without its leading white space. */
  function TrimStart(s: string): (r: string)
    ensures |r| <= |s|
  {
    if s != [] && IsWhitespace(s[0]) then TrimStart(s[1..]) else s
  }

  lemma {:induction false} TrimStartIs(s: string)
    ensures var r := TrimStart(s);
      && r == s[|s| - |r|..]
      && (r == [] || !IsWhitespace(r[0]))
      && SpaceBetween(s, 0, |s| - |r|)
  {
    if s != [] && IsWhitespace(s[0]) {
      TrimStartIs(s[1..]);
      hide IsWhitespace;
      assert forall i :: 1 <= i < |s| ==> s[i] == s[1..][i - 1];
    }
  }

  /** `s` without its trailing white space. */
  function TrimEnd(s: string): (r: string)
    ensures |r| <= |s|
  {
    if s != [] && IsWhitespace(s[|s| - 1]) then TrimEnd(s[..|s| - 1]) else s
  }

  lemma {:induction false} TrimEndIs(s: string)
    ensures var r := TrimEnd(s);
      && r == s[..|r|]
      && (r == [] || !IsWhitespace(r[|r| - 1]))
      && SpaceBetween(s, |r|, |s|)
  {
    if s != [] && IsWhitespace(s[|s| - 1]) {
      TrimEndIs(s[..|s| - 1]);
      hide IsWhitespace;
    }
  }

  function Trim(s: string): string { TrimEnd(TrimStart(s)) }

  predicate Blank(s: string) { Trim(s) == "" }

  /** Neither end is white space. */
  predicate Trimmed(s: string) {
    s == [] || (!IsWhitespace(s[0]) && !IsWhitespace(s[|s| - 1]))
  }

  ghost predicate AllSpace(s: string) {
    forall i :: 0 <= i < |s| ==> IsWhitespace(s[i])
  }

  /** `text[from..to]` is white space. */
  ghost predicate SpaceBetween(text: string, from: nat, to: nat) {
    forall i :: from <= i < to && i < |text| ==> IsWhitespace(text[i])
  }

  lemma TrimTrimmed(s: string)
    ensures Trimmed(Trim(s))
    ensures Trimmed(s) ==> Trim(s) == s
  {
    TrimStartIs(s);
    TrimEndIs(TrimStart(s));
    hide IsWhitespace;
  }

  /** Trimming takes white space off the two ends and nothing else. */
  lemma TrimSplits(s: string) returns (before: string, after: string)
    ensures s == before + Trim(s) + after
    ensures AllSpace(before) && AllSpace(after)
  {
    TrimStartIs(s);
    TrimEndIs(TrimStart(s));
    hide TrimStart, TrimEnd, IsWhitespace;
    var t := TrimStart(s);
    before, after := s[..|s| - |t|], t[|Trim(s)|..];
    assert t == Trim(s) + after;
  }

  lemma BlankIsAllSpace(s: string)
    ensures Blank(s) <==> AllSpace(s)
  {
    TrimTrimmed(s);
    hide IsWhitespace, Trim;
    var before, after := TrimSplits(s);
    assert Trim(s) != "" ==> s[|before|] == Trim(s)[0];
  }

  predicate OccursAt(text: string, span: string, i: nat) {
    i + |span| <= |text| && text[i..i + |span|] == span
  }

  /** `span` is somewhere in `text`, verbatim. */
  ghost predicate Contains(text: string, span: string) {
    exists i: nat :: OccursAt(text, span, i)
  }

  lemma ContainsWithin(before: string, text: string, after: string, span: string)
    requires Contains(text, span)
    ensures Contains(before + text + after, span)
  {
    var i: nat :| OccursAt(text, span, i);
    var whole := before + text + after;
    assert whole[|before| + i..|before| + i + |span|] == text[i..i + |span|];
    assert OccursAt(whole, span, |before| + i);
  }

  lemma ContainsSelf(before: string, span: string, after: string)
    ensures Contains(before + span + after, span)
  {
    assert OccursAt(before + span + after, span, |before|);
  }

  lemma OccursInside(before: string, text: string, after: string, span: string, at: nat)
    requires OccursAt(before + text + after, span, at)
    requires |before| <= at && at + |span| <= |before| + |text|
    ensures Contains(text, span)
  {
    var i := at - |before|;
    assert text[i..i + |span|] == (before + text + after)[at..at + |span|];
    assert OccursAt(text, span, i);
  }

  /** The same, or different at a place that both have: neither goes on where the other ends. */
  predicate SameOrApart(a: string, b: string) { a <= b || b <= a ==> a == b }

  /** What stands behind two such texts cannot make them alike. */
  lemma ApartBehind(a: string, x: string, b: string, y: string)
    requires SameOrApart(a, b) && (a == b ==> SameOrApart(x, y))
    ensures SameOrApart(a + x, b + y)
    ensures a + x == b + y <==> a == b && x == y
  {
    if a + x <= b + y { FrontsOf(a, x, b, y); }
    if b + y <= a + x { FrontsOf(b, y, a, x); }
  }

  lemma FrontsOf(a: string, x: string, b: string, y: string)
    requires a + x <= b + y
    ensures a <= b || b <= a
    ensures a == b ==> x <= y
  {
    var s, t := a + x, b + y;
    assert forall i :: 0 <= i < |a| ==> t[i] == s[i] == a[i];
    assert forall i :: 0 <= i < |b| ==> t[i] == b[i];
    if a == b {
      assert x == s[|a|..] && y == t[|a|..];
    }
  }
}
