/** Comment syntax around a text, and how it comes off: what is written inside it is what is read. */
module Decorations {
  import opened Markers
  import opened Text

  // ----- white space around a text

  lemma {:induction false} SpaceInFront(space: string, t: string)
    requires AllSpace(space) && (t == "" || !IsWhitespace(t[0]))
    ensures TrimStart(space + t) == t
  {
    hide IsWhitespace;
    if space == "" {
      assert space + t == t;
    } else {
      assert (space + t)[1..] == space[1..] + t;
      SpaceInFront(space[1..], t);
    }
  }

  lemma {:induction false} SpaceBehind(t: string, space: string)
    requires AllSpace(space) && (t == "" || !IsWhitespace(t[|t| - 1]))
    ensures TrimEnd(t + space) == t
  {
    hide IsWhitespace;
    if space == "" {
      assert t + space == t;
    } else {
      var k := |space| - 1;
      assert (t + space)[..|t + space| - 1] == t + space[..k];
      SpaceBehind(t, space[..k]);
    }
  }

  lemma SpaceAround(pad: string, t: string, tail: string)
    requires AllSpace(pad) && AllSpace(tail) && Trimmed(t)
    ensures Trim(pad + t + tail) == t
  {
    hide IsWhitespace, TrimStart, TrimEnd;
    if t == "" {
      assert pad + t + tail == pad + tail && pad + tail + "" == pad + tail;
      SpaceInFront(pad + tail, "");
      SpaceBehind("", "");
      assert "" + "" == "";
    } else {
      assert pad + t + tail == pad + (t + tail) && (t + tail)[0] == t[0];
      SpaceInFront(pad, t + tail);
      SpaceBehind(t, tail);
    }
  }

  /** The white space behind a marker, without the one space that belongs to it. */
  function Indent(gap: string): string { if gap != "" && gap[0] == ' ' then gap[1..] else gap }

  /** A gap and a text behind it; a gap with nothing behind it is no part of the line. */
  function Body(gap: string, t: string): string { if t == "" then "" else gap + t }

  /** What is left when the syntax is off: the indentation of the text, and the text. */
  function Inside(gap: string, t: string): string { if t == "" then "" else Indent(gap) + t }

  lemma InsideIs(gap: string, t: string, back: string)
    requires AllSpace(gap) && AllSpace(back) && Trimmed(t)
    ensures TrimEnd(StripOneSpace(gap + t + back)) == Inside(gap, t)
    ensures TrimStart(Inside(gap, t)) == t
  {
    hide IsWhitespace, TrimStart, TrimEnd;
    var all := gap + t + back;
    if t == "" {
      assert all == gap + back;
      var rest := StripOneSpace(all);
      assert AllSpace(rest) && "" + rest == rest;
      SpaceBehind("", rest);
      SpaceInFront("", "");
      assert "" + "" == "";
    } else {
      assert AllSpace(Indent(gap));
      NoSpaceFirst(t);
      assert StripOneSpace(all) == Indent(gap) + t + back by {
        if gap == "" { assert all[0] == t[0]; } else { assert all[0] == gap[0] && all[1..] == gap[1..] + t + back; }
      }
      assert (Indent(gap) + t)[|Indent(gap) + t| - 1] == t[|t| - 1];
      SpaceBehind(Indent(gap) + t, back);
      SpaceInFront(Indent(gap), t);
    }
  }

  lemma NoSpaceFirst(t: string)
    requires t != "" && Trimmed(t)
    ensures t[0] != ' '
  {
  }

  // ----- line comments

  /** `marker` is what a line with `body` behind it is read to open with. */
  predicate LineReads(marker: string, body: string) {
    || marker == "///" || marker == "//!"
    || (marker == "//" && (body == "" || (body[0] != '/' && body[0] != '!')))
    || (marker == "" && !("//" <= body))
  }

  lemma LineMarkerComesOff(marker: string, body: string)
    requires LineReads(marker, body)
    ensures StripLineMarker(marker + body) == body
  {
    var all := marker + body;
    assert all[|marker|..] == body;
    assert forall i :: 0 <= i < |marker| ==> all[i] == marker[i];
    assert body != "" ==> all[|marker|] == body[0];
    assert marker == "" ==> all == body;
  }

  /** A line comment: white space, a marker, white space and a text; the marker and one space come off, and for
    * prose the indentation as well. */
  lemma LineComesOff(pad: string, marker: string, gap: string, t: string, tail: string, first: bool)
    requires AllSpace(pad) && AllSpace(gap) && AllSpace(tail) && Trimmed(t)
    requires LineReads(marker, Body(gap, t)) && (marker == "" ==> gap == "")
    ensures var line := pad + (marker + Body(gap, t)) + tail;
      AfterMarkers(line, false, first) == Inside(gap, t) && StripMarkers(line, false, first) == t
  {
    var content := marker + Body(gap, t);
    ContentTrimmed(marker, gap, t);
    SpaceAround(pad, content, tail);
    LineMarkerComesOff(marker, Body(gap, t));
    hide IsWhitespace, Trim, TrimStart, TrimEnd, StripLineMarker, LineReads;
    InsideIs(gap, t, "");
    BodyInside(gap, t);
  }

  lemma ContentTrimmed(marker: string, gap: string, t: string)
    requires LineReads(marker, Body(gap, t)) && (marker == "" ==> gap == "") && Trimmed(t)
    ensures Trimmed(marker + Body(gap, t))
  {
    var all := marker + Body(gap, t);
    if t != "" { assert all[|all| - 1] == t[|t| - 1]; } else { assert all == marker; }
    if marker != "" { assert all[0] == marker[0] == '/'; } else { assert all == t; }
  }

  lemma BodyInside(gap: string, t: string)
    requires AllSpace(gap) && Trimmed(t)
    ensures TrimEnd(StripOneSpace(Body(gap, t))) == Inside(gap, t)
  {
    InsideIs(gap, t, "");
    hide IsWhitespace, TrimEnd;
    assert gap + t + "" == gap + t;
    if t == "" { assert StripOneSpace("") == "" && TrimEnd("") == "" by { SpaceBehind("", ""); assert "" + "" == ""; } }
  }

  // ----- block comments

  /** What stands behind the opener or the star of a line: the text, and the closer if it is there. */
  function Behind(gap: string, t: string, back: string, closed: bool): string {
    if closed then gap + t + back + "*/" else Body(gap, t)
  }

  predicate EndsInCloser(s: string) { |s| >= 2 && s[|s| - 2] == '*' && s[|s| - 1] == '/' }

  /** `opener` is what the first line of a block is read to open with, and the closer is there if it is said to be. */
  predicate FirstReads(opener: string, behind: string, closed: bool) {
    && (|| opener == "/**" || opener == "/*!"
        || (opener == "/*" && (behind == "" || (behind[0] != '*' && behind[0] != '!')))
        || (opener == "" && !("/*" <= behind)))
    && (!closed ==> !EndsInCloser(behind))
  }

  /** The same of a line further down, which may open with a star. */
  predicate NextReads(star: string, behind: string, closed: bool) {
    && (star == "*" || (star == "" && (behind == "" || behind[0] != '*' || (closed && |behind| == 2))))
    && (!closed ==> !EndsInCloser(star + behind))
  }

  lemma CloserComesOff(s: string)
    ensures StripCloser(s + "*/") == s
    ensures !EndsInCloser(s) ==> StripCloser(s) == s
  {
    var all := s + "*/";
    assert all[|s|] == '*' && all[|s| + 1] == '/' && all[..|s|] == s;
  }

  lemma OpenerComesOff(opener: string, behind: string, closed: bool)
    requires FirstReads(opener, behind, closed)
    ensures StripOpener(opener + behind) == behind
  {
    var all := opener + behind;
    assert all[|opener|..] == behind;
    assert forall i :: 0 <= i < |opener| ==> all[i] == opener[i];
    assert behind != "" ==> all[|opener|] == behind[0];
    assert opener == "" ==> all == behind;
  }

  /** A bare opener or star needs nothing in front of its text; white space there belongs to the line. */
  predicate Plain(front: string, gap: string, t: string, back: string) {
    front == "" ==> gap == "" && (t == "" ==> back == "")
  }

  lemma BlockContentTrimmed(front: string, gap: string, t: string, back: string, closed: bool)
    requires Plain(front, gap, t, back) && Trimmed(t) && (front == "" || front[0] == '/' || front[0] == '*')
    requires front == "" || (front[|front| - 1] == '*' || front[|front| - 1] == '!')
    ensures Trimmed(front + Behind(gap, t, back, closed))
  {
    var all := front + Behind(gap, t, back, closed);
    if closed {
      assert all[|all| - 1] == '/';
    } else if t != "" {
      assert all[|all| - 1] == t[|t| - 1];
    } else {
      assert all == front;
    }
    if front != "" {
      assert all[0] == front[0];
    } else if t != "" {
      assert all[0] == t[0];
    } else {
      assert closed ==> all[0] == '*';
    }
  }

  /** What is behind the front, with the closer off. */
  lemma ClosedOff(front: string, gap: string, t: string, back: string, closed: bool)
    requires !closed ==> !EndsInCloser(front + Behind(gap, t, back, closed))
    ensures StripCloser(front + Behind(gap, t, back, closed)) == front + if closed then gap + t + back else Body(gap, t)
  {
    if closed {
      CloserComesOff(front + (gap + t + back));
      assert front + (gap + t + back + "*/") == front + (gap + t + back) + "*/";
    } else {
      CloserComesOff(front + Body(gap, t));
    }
  }

  lemma FinishIs(gap: string, t: string, back: string, closed: bool)
    requires AllSpace(gap) && AllSpace(back) && Trimmed(t)
    ensures TrimEnd(StripOneSpace(if closed then gap + t + back else Body(gap, t))) == Inside(gap, t)
  {
    if closed { InsideIs(gap, t, back); } else { BodyInside(gap, t); }
  }

  lemma OpenerIsTrimmed(opener: string, gap: string, t: string, back: string, closed: bool)
    requires Plain(opener, gap, t, back) && Trimmed(t) && FirstReads(opener, Behind(gap, t, back, closed), closed)
    ensures Trimmed(opener + Behind(gap, t, back, closed))
    ensures !closed ==> !EndsInCloser(Behind(gap, t, back, closed))
  {
    hide IsWhitespace;
    BlockContentTrimmed(opener, gap, t, back, closed);
  }

  /** The first line of a block comment. */
  lemma FirstLineComesOff(pad: string, opener: string, gap: string, t: string, back: string, closed: bool, tail: string)
    requires AllSpace(pad) && AllSpace(gap) && AllSpace(back) && AllSpace(tail) && Trimmed(t)
    requires Plain(opener, gap, t, back) && FirstReads(opener, Behind(gap, t, back, closed), closed)
    ensures var line := pad + (opener + Behind(gap, t, back, closed)) + tail;
      AfterMarkers(line, true, true) == Inside(gap, t) && StripMarkers(line, true, true) == t
  {
    OpenerIsTrimmed(opener, gap, t, back, closed);
    var behind := Behind(gap, t, back, closed);
    SpaceAround(pad, opener + behind, tail);
    OpenerComesOff(opener, behind, closed);
    BareClosedOff(gap, t, back, closed);
    FinishIs(gap, t, back, closed);
    InsideIs(gap, t, "");
    hide *;
    FirstUnfolds(pad + (opener + behind) + tail, opener + behind, behind, if closed then gap + t + back else Body(gap, t));
  }

  lemma FirstUnfolds(line: string, content: string, behind: string, inside: string)
    requires Trim(line) == content && StripOpener(content) == behind && StripCloser(behind) == inside
    ensures AfterMarkers(line, true, true) == TrimEnd(StripOneSpace(inside))
    ensures StripMarkers(line, true, true) == TrimStart(TrimEnd(StripOneSpace(inside)))
  {
    hide Trim, StripOpener, StripCloser, StripOneSpace, TrimEnd, TrimStart;
  }

  lemma BareClosedOff(gap: string, t: string, back: string, closed: bool)
    requires !closed ==> !EndsInCloser(Behind(gap, t, back, closed))
    ensures StripCloser(Behind(gap, t, back, closed)) == if closed then gap + t + back else Body(gap, t)
  {
    if closed { CloserComesOff(gap + t + back); } else { CloserComesOff(Body(gap, t)); }
  }

  lemma StarComesOff(star: string, gap: string, t: string, back: string, closed: bool)
    requires AllSpace(back) && Trimmed(t) && Plain(star, gap, t, back) && NextReads(star, Behind(gap, t, back, closed), closed)
    ensures var inside := if closed then gap + t + back else Body(gap, t); StripStar(star + inside) == inside
  {
    var inside := if closed then gap + t + back else Body(gap, t);
    var all := star + inside;
    hide IsWhitespace;
    StarIsNoSpace();
    if star == "*" {
      assert all[0] == '*' && all[1..] == inside;
    } else {
      assert all == inside;
      if t != "" {
        assert inside[0] == t[0] && Behind(gap, t, back, closed)[0] == t[0];
        assert |Behind(gap, t, back, closed)| > 2 || !closed;
      }
    }
  }

  lemma StarIsNoSpace()
    ensures !IsWhitespace('*')
  {
  }

  /** A line further down, with a star or without. */
  lemma NextLineComesOff(pad: string, star: string, gap: string, t: string, back: string, closed: bool, tail: string)
    requires AllSpace(pad) && AllSpace(gap) && AllSpace(back) && AllSpace(tail) && Trimmed(t)
    requires Plain(star, gap, t, back) && NextReads(star, Behind(gap, t, back, closed), closed)
    ensures var line := pad + (star + Behind(gap, t, back, closed)) + tail;
      AfterMarkers(line, true, false) == Inside(gap, t) && StripMarkers(line, true, false) == t
  {
    BlockContentTrimmed(star, gap, t, back, closed);
    hide IsWhitespace, Trim, TrimStart, TrimEnd, StripStar, StripCloser, Inside, StripOneSpace;
    SpaceAround(pad, star + Behind(gap, t, back, closed), tail);
    ClosedOff(star, gap, t, back, closed);
    StarComesOff(star, gap, t, back, closed);
    FinishIs(gap, t, back, closed);
    InsideIs(gap, t, "");
  }

  // ----- lines as they are written

  lemma TrimEndOfLine(pad: string, core: string, tail: string)
    requires AllSpace(pad) && AllSpace(tail) && Trimmed(core)
    ensures TrimEnd(pad + core + tail) == if core == "" then "" else pad + core
  {
    hide IsWhitespace, TrimEnd;
    if core == "" {
      assert pad + core + tail == "" + (pad + tail);
      SpaceBehind("", pad + tail);
    } else {
      assert (pad + core)[|pad + core| - 1] == core[|core| - 1];
      SpaceBehind(pad + core, tail);
    }
  }

  lemma PadStays(pad: string, s: string)
    requires AllSpace(pad) && (s == "" || !IsWhitespace(s[0]))
    ensures StripStar(pad + s) == if s != "" && s[0] == '*' then s[1..] else pad + s
  {
    SpaceInFront(pad, s);
    hide TrimStart, IsWhitespace;
  }

  /** A line that is kept as it is written keeps the white space in front of it, but for one space, where it
    * has no star; a star takes that with it. */
  lemma WrittenLineIs(pad: string, star: string, gap: string, t: string, back: string, closed: bool, tail: string)
    requires AllSpace(pad) && AllSpace(gap) && AllSpace(back) && AllSpace(tail) && Trimmed(t)
    requires Plain(star, gap, t, back) && NextReads(star, Behind(gap, t, back, closed), closed)
    ensures var line := pad + (star + Behind(gap, t, back, closed)) + tail;
      AfterMarkersAsWritten(line, true, false) == Inside(if star == "" then pad else gap, t)
  {
    BlockContentTrimmed(star, gap, t, back, closed);
    hide IsWhitespace, TrimStart, TrimEnd, StripStar, StripCloser, Inside, StripOneSpace;
    var core := star + Behind(gap, t, back, closed);
    TrimEndOfLine(pad, core, tail);
    if core == "" {
      WrittenNothing(pad, t);
    } else {
      PaddedStrip(pad, core);
      ClosedOff(star, gap, t, back, closed);
      WrittenRest(pad, star, gap, t, back, closed);
    }
  }

  lemma WrittenRest(pad: string, star: string, gap: string, t: string, back: string, closed: bool)
    requires AllSpace(pad) && AllSpace(gap) && AllSpace(back) && Trimmed(t)
    requires Plain(star, gap, t, back) && NextReads(star, Behind(gap, t, back, closed), closed)
    ensures var inside := if closed then gap + t + back else Body(gap, t);
      TrimEnd(StripOneSpace(StripStar(pad + (star + inside)))) == Inside(if star == "" then pad else gap, t)
  {
    StartsPlain(star, gap, t, back, closed);
    var inside := if closed then gap + t + back else Body(gap, t);
    if star == "" {
      var rest := if closed then back else "";
      Bare(gap, t, back);
      assert AllSpace(rest) && inside == t + rest;
      BareRest(pad, t, rest);
    } else {
      FinishIs(gap, t, back, closed);
      hide *;
      WrittenFinish(pad, star, inside);
    }
  }

  lemma BareRest(pad: string, t: string, rest: string)
    requires AllSpace(pad) && AllSpace(rest) && Trimmed(t)
    requires t + rest == "" || (!IsWhitespace((t + rest)[0]) && (t + rest)[0] != '*')
    ensures TrimEnd(StripOneSpace(StripStar(pad + ("" + (t + rest))))) == Inside(pad, t)
  {
    InsideIs(pad, t, rest);
    Regrouped(pad, t, rest);
    hide StripStar, StripOneSpace, TrimEnd, TrimStart, Inside, IsWhitespace, Trimmed;
    WrittenFinish(pad, "", t + rest);
  }

  lemma Regrouped(pad: string, t: string, rest: string)
    ensures "" + (t + rest) == t + rest && pad + (t + rest) == pad + t + rest
  {
  }

  lemma Bare(gap: string, t: string, back: string)
    requires Plain("", gap, t, back)
    ensures gap == "" && Body(gap, t) == t && gap + t + back == t + back && t + "" == t
  {
  }

  lemma WrittenFinish(pad: string, star: string, inside: string)
    requires AllSpace(pad) && (star == "" || star == "*")
    requires var s := star + inside; s == "" || (!IsWhitespace(s[0]) && (star == "" ==> s[0] != '*') && (star != "" ==> s[0] == '*'))
    ensures StripStar(pad + (star + inside)) == if star == "" then pad + inside else inside
  {
    hide StripStar, IsWhitespace;
    PadStays(pad, star + inside);
    if star == "" { assert star + inside == inside; } else { assert (star + inside)[1..] == inside; }
  }

  lemma WrittenNothing(pad: string, t: string)
    requires t == ""
    ensures TrimEnd(StripOneSpace(StripStar(StripCloser("")))) == Inside(pad, t)
  {
    assert TrimStart("") == "" && TrimEnd("") == "";
  }

  lemma PaddedStrip(pad: string, core: string)
    requires AllSpace(pad) && core != ""
    ensures StripCloser(pad + core) == pad + StripCloser(core)
  {
    StarIsNoSpace();
    hide IsWhitespace;
    var all := pad + core;
    assert all[|all| - 1] == core[|core| - 1];
    if |core| >= 2 {
      assert all[|all| - 2] == core[|core| - 2];
      assert all[..|all| - 2] == pad + core[..|core| - 2];
    } else if pad != "" {
      assert all[|all| - 2] == pad[|pad| - 1];
    }
  }

  lemma StartsPlain(star: string, gap: string, t: string, back: string, closed: bool)
    requires AllSpace(back) && Trimmed(t) && Plain(star, gap, t, back) && NextReads(star, Behind(gap, t, back, closed), closed)
    ensures var s := star + if closed then gap + t + back else Body(gap, t);
      s == "" || (!IsWhitespace(s[0]) && (star == "" ==> s[0] != '*') && (star != "" ==> star == "*" && s[0] == '*'))
  {
    hide IsWhitespace;
    StarIsNoSpace();
    var s := star + if closed then gap + t + back else Body(gap, t);
    if star == "" && t != "" {
      assert s[0] == t[0] && Behind(gap, t, back, closed)[0] == t[0];
      assert |Behind(gap, t, back, closed)| > 2 || !closed;
    }
  }

  lemma WrittenOtherwise(line: string, first: bool)
    ensures AfterMarkersAsWritten(line, false, first) == AfterMarkers(line, false, first)
    ensures AfterMarkersAsWritten(line, true, true) == AfterMarkers(line, true, true)
  {
    TrimsCommute(line);
    hide IsWhitespace, Trim, TrimStart, TrimEnd, StripOpener, StripCloser, StripOneSpace, StripLineMarker;
  }

  // ----- every line is dressed so

  /** Text that does not begin in white space, and what is behind it if it ends in some. */
  lemma Dressed(x: string) returns (gap: string, t: string, back: string)
    ensures x == gap + t + back && AllSpace(gap) && AllSpace(back) && Trimmed(t)
    ensures t == "" ==> gap == ""
    ensures x == "" || !IsWhitespace(x[|x| - 1]) ==> back == ""
    ensures x == "" || !IsWhitespace(x[0]) ==> gap == ""
  {
    gap, back := TrimSplits(x);
    t := Trim(x);
    TrimTrimmed(x);
    hide IsWhitespace, Trim;
    if t == "" {
      gap, back := "", gap + back;
    }
    assert back != "" ==> x[|x| - 1] == back[|back| - 1];
    assert gap != "" ==> x[0] == gap[0];
  }

  lemma LineIsDressed(line: string) returns (pad: string, marker: string, gap: string, t: string, tail: string)
    ensures AllSpace(pad) && AllSpace(gap) && AllSpace(tail) && Trimmed(t)
    ensures LineReads(marker, Body(gap, t)) && (marker == "" ==> gap == "")
    ensures line == pad + (marker + Body(gap, t)) + tail
  {
    pad, tail := TrimSplits(line);
    TrimTrimmed(line);
    hide IsWhitespace, Trim, LineReads, Body;
    marker, gap, t := ContentIsDressed(Trim(line));
  }

  lemma ContentIsDressed(content: string) returns (marker: string, gap: string, t: string)
    requires Trimmed(content)
    ensures AllSpace(gap) && Trimmed(t)
    ensures LineReads(marker, Body(gap, t)) && (marker == "" ==> gap == "") && content == marker + Body(gap, t)
  {
    hide IsWhitespace, LineReads, LineMarker, Body;
    var k := if LineMarker(content).Some? then LineMarker(content).value else 0;
    marker := content[..k];
    var x := content[k..];
    MarkerReads(content, k);
    LastIsLast(content, marker, x);
    gap, t := DressedBody(x);
    assert marker == "" ==> x == content;
  }

  lemma DressedBody(x: string) returns (gap: string, t: string)
    requires x == "" || !IsWhitespace(x[|x| - 1])
    ensures x == Body(gap, t) && AllSpace(gap) && Trimmed(t)
    ensures x == "" || !IsWhitespace(x[0]) ==> gap == ""
  {
    hide IsWhitespace;
    var back;
    gap, t, back := Dressed(x);
  }

  lemma MarkerReads(content: string, k: nat)
    requires k == if LineMarker(content).Some? then LineMarker(content).value else 0
    ensures LineReads(content[..k], content[k..])
  {
    if k == 0 { assert content[0..] == content; }
  }

  /** A text without its closer. */
  lemma Unclosed(s: string) returns (x: string)
    ensures s == x + if EndsInCloser(s) then "*/" else ""
    ensures !EndsInCloser(s) ==> x == s
    ensures x != "" ==> x[0] == s[0]
  {
    x := if EndsInCloser(s) then s[..|s| - 2] else s;
  }

  lemma NextLineIsDressed(line: string)
    returns (pad: string, star: string, gap: string, t: string, back: string, closed: bool, tail: string)
    ensures AllSpace(pad) && AllSpace(gap) && AllSpace(back) && AllSpace(tail) && Trimmed(t)
    ensures Plain(star, gap, t, back) && NextReads(star, Behind(gap, t, back, closed), closed)
    ensures line == pad + (star + Behind(gap, t, back, closed)) + tail
  {
    pad, tail := TrimSplits(line);
    TrimTrimmed(line);
    hide IsWhitespace, Trim, Behind, NextReads, Plain;
    star, gap, t, back := NextIsDressed(Trim(line));
    closed := EndsInCloser(Trim(line));
  }

  lemma NextIsDressed(content: string) returns (star: string, gap: string, t: string, back: string)
    requires Trimmed(content)
    ensures AllSpace(gap) && AllSpace(back) && Trimmed(t)
    ensures var closed := EndsInCloser(content);
      && Plain(star, gap, t, back) && NextReads(star, Behind(gap, t, back, closed), closed)
      && content == star + Behind(gap, t, back, closed)
  {
    hide IsWhitespace, Behind, NextReads, Plain, EndsInCloser;
    var closed := EndsInCloser(content);
    var d := Unclosed(content);
    var x;
    star, x := Unstarred(d);
    gap, t, back := Dressed(x);
    LastIsLast(d, star, x);
    InPlace(star, x, gap, t, back, closed);
    NextIsRead(star, x, gap, t, back, closed);
  }

  lemma Unstarred(d: string) returns (star: string, x: string)
    ensures d == star + x && (star == "*" || (star == "" && x == d && (d == "" || d[0] != '*')))
  {
    star := if d != "" && d[0] == '*' then "*" else "";
    x := d[|star|..];
  }

  lemma LastIsLast(d: string, front: string, x: string)
    requires d == front + x
    ensures x != "" ==> x[|x| - 1] == d[|d| - 1]
  {
  }

  lemma InPlace(front: string, x: string, gap: string, t: string, back: string, closed: bool)
    requires x == gap + t + back && (t == "" ==> gap == "") && (!closed ==> back == "")
    ensures front + Behind(gap, t, back, closed) == front + x + if closed then "*/" else ""
  {
  }

  lemma NextIsRead(star: string, x: string, gap: string, t: string, back: string, closed: bool)
    requires x == gap + t + back && (t == "" ==> gap == "") && (!closed ==> back == "") && (star == "" ==> gap == "")
    requires star == "*" || (star == "" && (x == "" || x[0] != '*'))
    requires star == "" && t == "" ==> back == ""
    requires !closed ==> !EndsInCloser(star + Behind(gap, t, back, closed))
    ensures NextReads(star, Behind(gap, t, back, closed), closed) && Plain(star, gap, t, back)
  {
    var behind := Behind(gap, t, back, closed);
    if star == "" && x != "" { assert behind[0] == x[0]; }
  }

  lemma FirstLineIsDressed(line: string)
    returns (pad: string, opener: string, gap: string, t: string, back: string, closed: bool, tail: string)
    ensures AllSpace(pad) && AllSpace(gap) && AllSpace(back) && AllSpace(tail) && Trimmed(t)
    ensures Plain(opener, gap, t, back) && FirstReads(opener, Behind(gap, t, back, closed), closed)
    ensures line == pad + (opener + Behind(gap, t, back, closed)) + tail
  {
    pad, tail := TrimSplits(line);
    TrimTrimmed(line);
    hide IsWhitespace, Trim, Behind, FirstReads, Plain;
    opener, gap, t, back, closed := FirstIsDressed(Trim(line));
  }

  lemma FirstIsDressed(content: string) returns (opener: string, gap: string, t: string, back: string, closed: bool)
    requires Trimmed(content)
    ensures AllSpace(gap) && AllSpace(back) && Trimmed(t)
    ensures Plain(opener, gap, t, back) && FirstReads(opener, Behind(gap, t, back, closed), closed)
    ensures content == opener + Behind(gap, t, back, closed)
  {
    hide IsWhitespace, FirstReads, EndsInCloser, StripOpener, Behind;
    OpenerIn(content);
    var k := |content| - |StripOpener(content)|;
    opener := content[..k];
    var inside := content[k..];
    closed := EndsInCloser(inside);
    var x := Unclosed(inside);
    gap, t, back := Dressed(x);
    LastIsLast(content, opener, inside);
    InPlace("", x, gap, t, back, closed);
    assert "" + Behind(gap, t, back, closed) == Behind(gap, t, back, closed) && "" + x == x;
    OpenerReads(content, k, closed);
  }

  lemma OpenerIn(content: string)
    ensures |StripOpener(content)| <= |content|
  {
  }

  lemma OpenerReads(content: string, k: nat, closed: bool)
    requires k == |content| - |StripOpener(content)| && (!closed ==> !EndsInCloser(content[k..]))
    ensures k <= |content| && FirstReads(content[..k], content[k..], closed)
  {
    if k == 0 { assert content[0..] == content; }
  }
}
