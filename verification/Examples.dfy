/** Which lines of a comment are an indented example: a scan over spans, and the rule it follows. */
module Examples {
  import opened Markers
  import opened Text
  import opened Wrappers

  // ----- what the scan sees of a line

  datatype Kind = Empty | Indented | Brace | Plain

  function KindOf(line: string): Kind {
    if Blank(line) then Empty
    else if line != "" && (line[0] == ' ' || line[0] == '\t') then Indented
    else if line != "" && line[0] == '}' then Brace
    else Plain
  }

  function Kinds(lines: seq<string>): (r: seq<Kind>)
    ensures |r| == |lines| && forall i :: 0 <= i < |r| ==> r[i] == KindOf(lines[i])
  {
    seq(|lines|, i requires 0 <= i < |lines| => KindOf(lines[i]))
  }

  /** A list marker with text behind it. */
  predicate OpensAList(line: string) {
    var t := Trim(line);
    var n :=
      if t == "" then 0
      else if t[0] == '\U{2022}' || t[0] == '*' || t[0] == '+' || t[0] == '-' then 1
      else if IsDigit(t[0]) then
        var digits := CountDigits(t, 0);
        if digits < |t| && (t[digits] == '.' || t[digits] == ')') then digits + 1 else 0
      else 0;
    0 < n < |t| && (t[n] == ' ' || t[n] == '\t') && !Blank(t[n..])
  }

  // ----- the rule

  /** `s` opens a span: it is indented, and the line before it, blank ones aside, is not. */
  ghost predicate Begins(kinds: seq<Kind>, s: int) {
    && 0 <= s < |kinds| && kinds[s] == Indented
    && forall p :: 0 <= p < s && (forall q :: p < q < s ==> kinds[q] == Empty) ==> kinds[p] != Indented
  }

  /** Nothing from `s` to `i` ends a span. */
  ghost predicate Runs(kinds: seq<Kind>, s: int, i: int) {
    0 <= s <= i < |kinds| && forall j :: s <= j <= i ==> kinds[j] == Empty || kinds[j] == Indented
  }

  /** The span of `s` reaches `i`: indented lines with blanks only between them, and a line that
    * begins with `}` right after the last. */
  ghost predicate Reaches(kinds: seq<Kind>, s: int, i: int) {
    || (exists e :: i <= e && Runs(kinds, s, e) && s <= i && kinds[e] == Indented)
    || (0 <= s < i < |kinds| && Runs(kinds, s, i - 1) && kinds[i - 1] == Indented && kinds[i] == Brace)
  }

  ghost predicate Marked(lines: seq<string>, i: int) {
    exists s :: 0 <= s < |lines| && Begins(Kinds(lines), s) && Reaches(Kinds(lines), s, i) && !OpensAList(lines[s])
  }

  // ----- the scan

  /** No span that begins before `index` reaches it or past it. */
  ghost predicate Settled(kinds: seq<Kind>, index: int) {
    forall s, i :: Begins(kinds, s) && s < index <= i ==> !Reaches(kinds, s, i)
  }

  /** If the next line that is not blank is indented, it begins a span. */
  ghost predicate NextBegins(kinds: seq<Kind>, index: int) {
    && 0 <= index
    && forall n :: index <= n < |kinds| && kinds[n] == Indented && (forall q :: index <= q < n ==> kinds[q] == Empty)
         ==> Begins(kinds, n)
  }

  /** A line that is neither blank nor indented settles everything before it. */
  lemma AfterProse(kinds: seq<Kind>, index: int)
    requires 0 < index <= |kinds| && (kinds[index - 1] == Plain || kinds[index - 1] == Brace)
    ensures NextBegins(kinds, index)
  {
  }

  /** Lines that are not indented begin nothing, so what was settled before them is after them. */
  lemma SettledPast(kinds: seq<Kind>, from: int, to: int)
    requires 0 <= from <= to <= |kinds| && Settled(kinds, from)
    requires forall i :: from <= i < to ==> kinds[i] != Indented
    ensures Settled(kinds, to)
    ensures forall s, i :: from <= i < to && Begins(kinds, s) ==> !Reaches(kinds, s, i)
  {
    forall s, i | from <= i < to && Begins(kinds, s) ensures !Reaches(kinds, s, i) {
      if s >= from { assert s >= to; }
    }
  }

  lemma BlanksPast(kinds: seq<Kind>, from: int, to: int)
    requires 0 <= from <= to <= |kinds| && NextBegins(kinds, from)
    requires forall i :: from <= i < to ==> kinds[i] == Empty
    ensures NextBegins(kinds, to)
  {
  }

  /** What the span of `start` reaches: its lines to the last indented one, and a `}` right behind. */
  lemma SpanReaches(kinds: seq<Kind>, start: int, end: int, stop: int)
    requires Begins(kinds, start) && start < end <= stop <= |kinds|
    requires forall i :: start <= i < stop ==> kinds[i] == Empty || kinds[i] == Indented
    requires stop < |kinds| ==> kinds[stop] == Plain || kinds[stop] == Brace
    requires kinds[end - 1] == Indented && forall i :: end <= i < stop ==> kinds[i] == Empty
    ensures forall i :: Reaches(kinds, start, i) <==>
      start <= i < end || (i == end && end < |kinds| && kinds[end] == Brace)
  {
    assert Runs(kinds, start, end - 1);
    forall i ensures Reaches(kinds, start, i) <==>
      start <= i < end || (i == end && end < |kinds| && kinds[end] == Brace)
    {
      if Reaches(kinds, start, i) {
        if e :| i <= e && Runs(kinds, start, e) && start <= i && kinds[e] == Indented {
          assert e < stop;
        } else {
          assert Runs(kinds, start, i - 1) && i - 1 < stop;
        }
      }
    }
  }

  lemma BeginsOnce(kinds: seq<Kind>, start: int, end: int)
    requires Begins(kinds, start) && start < end <= |kinds|
    requires forall i :: start <= i < end - 1 ==> kinds[i] == Empty || kinds[i] == Indented
    ensures forall s :: start < s < end ==> !Begins(kinds, s)
  {
    forall s | start < s < end ensures !Begins(kinds, s) {
      var p := LastFull(kinds, start, s);
    }
  }

  /** The last line before `s` that is not blank. */
  lemma {:induction false} LastFull(kinds: seq<Kind>, start: int, s: int) returns (p: int)
    requires 0 <= start < s <= |kinds| && kinds[start] == Indented
    requires forall i :: start <= i < s ==> kinds[i] == Empty || kinds[i] == Indented
    ensures start <= p < s && kinds[p] == Indented && forall q :: p < q < s ==> kinds[q] == Empty
    decreases s
  {
    if kinds[s - 1] == Indented {
      p := s - 1;
    } else {
      p := LastFull(kinds, start, s - 1);
    }
  }

  /** The marks of `lines`: each line of an example that is not a list, and no other. */
  ghost predicate MarksOf(lines: seq<string>, example: seq<Option<string>>, n: int) {
    && |example| == |lines| && 0 <= n <= |lines|
    && (forall i :: 0 <= i < n ==> example[i] == if Marked(lines, i) then Some(lines[i]) else None)
    && (forall i :: n <= i < |lines| ==> example[i] == None)
  }

  lemma UnreachedUnmarked(lines: seq<string>, from: int, to: int)
    requires 0 <= from <= to <= |lines|
    requires forall s, i :: from <= i < to && Begins(Kinds(lines), s) ==> !Reaches(Kinds(lines), s, i)
    ensures forall i :: from <= i < to ==> !Marked(lines, i)
  {
    hide KindOf, OpensAList, Reaches, Begins;
  }

  /** No line is in two spans. */
  lemma OneSpan(kinds: seq<Kind>, s: int, t: int, i: int)
    requires Begins(kinds, s) && Begins(kinds, t) && Reaches(kinds, s, i) && Reaches(kinds, t, i)
    ensures s == t
  {
    if s < t { NotInside(kinds, s, t, i); }
    if t < s { NotInside(kinds, t, s, i); }
  }

  lemma NotInside(kinds: seq<Kind>, s: int, t: int, i: int)
    requires Begins(kinds, s) && s < t <= i && Reaches(kinds, s, i) && t < |kinds|
    ensures !Begins(kinds, t)
  {
    if kinds[t] == Indented {
      if e :| i <= e && Runs(kinds, s, e) && kinds[e] == Indented {
        BeginsOnce(kinds, s, t + 1);
      } else {
        assert Runs(kinds, s, i - 1) && t < i;
        BeginsOnce(kinds, s, t + 1);
      }
    }
  }

  /** The lines of one span share its mark: an example, or a list. */
  lemma SpanMarks(lines: seq<string>, s: int, i: int)
    requires Begins(Kinds(lines), s) && Reaches(Kinds(lines), s, i)
    ensures 0 <= s < |lines| && (Marked(lines, i) <==> !OpensAList(lines[s]))
  {
    hide KindOf, OpensAList, Reaches, Begins;
    SpanIsIn(Kinds(lines), s);
    if Marked(lines, i) {
      var t :| 0 <= t < |lines| && Begins(Kinds(lines), t) && Reaches(Kinds(lines), t, i) && !OpensAList(lines[t]);
      OneSpan(Kinds(lines), s, t, i);
    }
  }

  lemma SpanIsIn(kinds: seq<Kind>, s: int)
    requires Begins(kinds, s)
    ensures 0 <= s < |kinds|
  {
  }

  lemma SpanSettles(kinds: seq<Kind>, start: int, end: int)
    requires 0 <= start < end <= |kinds| && Settled(kinds, start)
    requires forall i :: i >= end ==> !Reaches(kinds, start, i)
    requires forall s :: start < s < end ==> !Begins(kinds, s)
    ensures Settled(kinds, end)
  {
    hide Reaches, Begins;
  }

  method IndentedExamples(lines: seq<string>) returns (example: seq<Option<string>>)
    ensures MarksOf(lines, example, |lines|)
  {
    hide KindOf, OpensAList, Marked, Reaches, Begins, NextBegins, Settled;
    ghost var kinds := Kinds(lines);
    example := seq(|lines|, _ => None);
    var index := 0;
    StartsSettled(kinds);
    while index < |lines|
      invariant 0 <= index <= |lines|
      invariant MarksOf(lines, example, index)
      invariant Settled(kinds, index) && NextBegins(kinds, index)
      decreases |lines| - index
    {
      var start := SkipBlanks(lines, index);
      SettledPast(kinds, index, start);
      BlanksPast(kinds, index, start);
      UnreachedUnmarked(lines, index, start);
      if start >= |lines| {
        index := start;
        break;
      }
      if KindOf(lines[start]) != Indented {
        index := ProseEnd(lines, start);
        SettledPast(kinds, start, index);
        AfterProse(kinds, index);
        UnreachedUnmarked(lines, start, index);
      } else {
        BeginsHere(kinds, start);
        var end, stop := SpanEnd(lines, start);
        SpanReaches(kinds, start, end, stop);
        AfterSpan(kinds, end, stop);
        if end < |lines| && KindOf(lines[end]) == Brace {
          end := end + 1;
          AfterProse(kinds, end);
        }
        BeginsOnce(kinds, start, end);
        forall i | start <= i < end ensures Marked(lines, i) <==> !OpensAList(lines[start]) { SpanMarks(lines, start, i); }
        SpanSettles(kinds, start, end);
        if !OpensAList(lines[start]) {
          for i := start to end
            invariant |example| == |lines|
            invariant forall k :: 0 <= k < |lines| ==>
              example[k] == if start <= k < i || (k < start && Marked(lines, k)) then Some(lines[k]) else None
          {
            example := example[i := Some(lines[i])];
          }
        }
        index := end;
      }
    }
  }

  lemma StartsSettled(kinds: seq<Kind>)
    ensures Settled(kinds, 0) && NextBegins(kinds, 0)
  {
  }

  lemma BeginsHere(kinds: seq<Kind>, start: int)
    requires 0 <= start < |kinds| && NextBegins(kinds, start) && kinds[start] == Indented
    ensures Begins(kinds, start)
  {
  }

  lemma AfterSpan(kinds: seq<Kind>, end: int, stop: int)
    requires 0 <= end <= stop <= |kinds|
    requires forall i :: end <= i < stop ==> kinds[i] == Empty
    requires stop < |kinds| ==> kinds[stop] != Empty && kinds[stop] != Indented
    ensures NextBegins(kinds, end)
  {
  }

  method SkipBlanks(lines: seq<string>, from: int) returns (start: int)
    requires 0 <= from <= |lines|
    ensures from <= start <= |lines| && forall i :: from <= i < start ==> KindOf(lines[i]) == Empty
    ensures start < |lines| ==> KindOf(lines[start]) != Empty
  {
    hide KindOf;
    start := from;
    while start < |lines| && KindOf(lines[start]) == Empty
      invariant from <= start <= |lines| && forall i :: from <= i < start ==> KindOf(lines[i]) == Empty
    {
      start := start + 1;
    }
  }

  /** Prose runs to the next blank or indented line. */
  method ProseEnd(lines: seq<string>, start: int) returns (end: int)
    requires 0 <= start < |lines| && KindOf(lines[start]) != Empty && KindOf(lines[start]) != Indented
    ensures start < end <= |lines|
    ensures forall i :: start <= i < end ==> KindOf(lines[i]) == Plain || KindOf(lines[i]) == Brace
  {
    hide KindOf;
    end := start + 1;
    while end < |lines| && KindOf(lines[end]) != Empty && KindOf(lines[end]) != Indented
      invariant start < end <= |lines|
      invariant forall i :: start <= i < end ==> KindOf(lines[i]) == Plain || KindOf(lines[i]) == Brace
    {
      end := end + 1;
    }
  }

  /** A span runs to `stop`, the next line that is neither blank nor indented; `end` leaves the
    * blanks before it out. */
  method SpanEnd(lines: seq<string>, start: int) returns (end: int, stop: int)
    requires 0 <= start < |lines| && KindOf(lines[start]) == Indented
    ensures start < end <= stop <= |lines| && KindOf(lines[end - 1]) == Indented
    ensures forall i :: start <= i < stop ==> KindOf(lines[i]) == Empty || KindOf(lines[i]) == Indented
    ensures forall i :: end <= i < stop ==> KindOf(lines[i]) == Empty
    ensures stop < |lines| ==> KindOf(lines[stop]) == Plain || KindOf(lines[stop]) == Brace
  {
    hide KindOf;
    stop := start + 1;
    while stop < |lines| && (KindOf(lines[stop]) == Empty || KindOf(lines[stop]) == Indented)
      invariant start < stop <= |lines|
      invariant forall i :: start <= i < stop ==> KindOf(lines[i]) == Empty || KindOf(lines[i]) == Indented
    {
      stop := stop + 1;
    }
    end := stop;
    while end > start && KindOf(lines[end - 1]) == Empty
      invariant start < end <= stop
      invariant forall i :: end <= i < stop ==> KindOf(lines[i]) == Empty
    {
      end := end - 1;
    }
  }

  // ----- the indentation a block comment has in common

  /** The run of spaces and tabs a line begins with. */
  function Indentation(line: string): (r: string)
    ensures |r| <= |line|
  {
    if line != "" && (line[0] == ' ' || line[0] == '\t') then [line[0]] + Indentation(line[1..]) else ""
  }

  /** What two strings begin with alike. */
  function Shared(a: string, b: string): (r: string)
    ensures |r| <= |a| && |r| <= |b|
  {
    if a != "" && b != "" && a[0] == b[0] then [a[0]] + Shared(a[1..], b[1..]) else ""
  }

  lemma {:induction false} SharedIsPrefix(a: string, b: string)
    ensures Shared(a, b) <= a && Shared(a, b) <= b
  {
    if a != "" && b != "" && a[0] == b[0] {
      SharedIsPrefix(a[1..], b[1..]);
      assert a == [a[0]] + a[1..] && b == [b[0]] + b[1..];
    }
  }

  lemma {:induction false} SharedIsLongest(a: string, b: string, p: string)
    requires p <= a && p <= b
    ensures p <= Shared(a, b)
  {
    if p != "" {
      SharedIsLongest(a[1..], b[1..], p[1..]);
      assert p == [p[0]] + p[1..];
    }
  }

  /** The indentation shared by the lines of `lines` that are not blank. */
  function CommonFrom(lines: seq<string>): Option<string> {
    if lines == [] then None
    else
      var k := |lines| - 1;
      var common := CommonFrom(lines[..k]);
      if Blank(lines[k]) then common
      else if common.None? then Some(Indentation(lines[k]))
      else Some(Shared(common.value, Indentation(lines[k])))
  }

  function CommonIndentation(lines: seq<string>): string {
    var common := CommonFrom(lines);
    if common.None? then "" else common.value
  }

  method FindCommonIndentation(lines: seq<string>) returns (r: string)
    ensures r == CommonIndentation(lines)
  {
    hide Indentation, Trim;
    var common := None;
    for i := 0 to |lines|
      invariant common == CommonFrom(lines[..i])
    {
      assert lines[..i + 1][..i] == lines[..i];
      if Blank(lines[i]) {
        continue;
      }
      var indentation := Indentation(lines[i]);
      common := Some(if common.None? then indentation else Shared(common.value, indentation));
    }
    assert lines[..|lines|] == lines;
    r := if common.None? then "" else common.value;
  }

  /** It is an indentation of every line that is not blank, */
  lemma {:induction false} CommonIsPrefix(lines: seq<string>, i: nat)
    requires i < |lines| && !Blank(lines[i])
    ensures CommonFrom(lines).Some? && CommonFrom(lines).value <= Indentation(lines[i])
  {
    hide Blank, Indentation, Shared;
    var k := |lines| - 1;
    if i < k {
      CommonIsPrefix(lines[..k], i);
    }
    if !Blank(lines[k]) && CommonFrom(lines[..k]).Some? {
      SharedIsPrefix(CommonFrom(lines[..k]).value, Indentation(lines[k]));
    }
  }

  /** and the longest there is. */
  lemma {:induction false} CommonIsLongest(lines: seq<string>, p: string)
    requires CommonFrom(lines).Some?
    requires forall i :: 0 <= i < |lines| && !Blank(lines[i]) ==> p <= Indentation(lines[i])
    ensures p <= CommonFrom(lines).value
  {
    hide Blank, Indentation, Shared;
    var k := |lines| - 1;
    var before := lines[..k];
    assert forall i :: 0 <= i < k ==> before[i] == lines[i];
    if CommonFrom(before).Some? {
      CommonIsLongest(before, p);
      if !Blank(lines[k]) {
        SharedIsLongest(CommonFrom(before).value, Indentation(lines[k]), p);
      }
    }
  }

  function Unindent(line: string, common: string): string {
    if common <= line then line[|common|..] else line
  }

  /** The lines as the scan reads them: syntax off, a block's own indentation off as well. */
  function Written(raw: seq<string>, block: bool): (r: seq<string>)
    ensures |r| == |raw|
  {
    var lines := AsWritten(raw, block);
    if block then Undented(lines, CommonIndentation(lines)) else lines
  }

  function AsWritten(raw: seq<string>, block: bool): (r: seq<string>)
    ensures |r| == |raw|
  {
    seq(|raw|, i requires 0 <= i < |raw| => AfterMarkersAsWritten(raw[i], block, i == 0))
  }

  function Undented(lines: seq<string>, common: string): (r: seq<string>)
    ensures |r| == |lines|
  {
    seq(|lines|, i requires 0 <= i < |lines| => Unindent(lines[i], common))
  }

  /** The example lines of a comment under the rules that mark one by its indentation. */
  ghost function ExamplesOf(raw: seq<string>, block: bool): (r: seq<Option<string>>)
    ensures |r| == |raw|
  {
    var lines := Written(raw, block);
    seq(|raw|, i requires 0 <= i < |raw| => if Marked(lines, i) then Some(lines[i]) else None)
  }

  method FindExamples(raw: seq<string>, block: bool) returns (examples: seq<Option<string>>)
    ensures examples == ExamplesOf(raw, block)
  {
    hide Marked, CommonIndentation;
    var lines := AsWritten(raw, block);
    if block {
      var common := FindCommonIndentation(lines);
      lines := Undented(lines, common);
    }
    assert lines == Written(raw, block);
    examples := IndentedExamples(lines);
  }

  lemma {:induction false} IndentationIsSpace(line: string)
    ensures Indentation(line) <= line && AllSpace(Indentation(line))
  {
    if line != "" && (line[0] == ' ' || line[0] == '\t') {
      IndentationIsSpace(line[1..]);
      assert line == [line[0]] + line[1..];
    }
  }

  /** An example line holds what its line does, white space aside. */
  lemma WrittenSameText(raw: seq<string>, block: bool, i: nat)
    requires i < |raw|
    ensures NonWs(Written(raw, block)[i]) == NonWs(AfterMarkers(raw[i], block, i == 0))
  {
    hide NonWs, AfterMarkers, AfterMarkersAsWritten, CommonIndentation;
    var lines := AsWritten(raw, block);
    AsWrittenSameText(raw[i], block, i == 0);
    if block {
      UnindentSameText(lines, i);
    }
  }

  lemma UnindentSameText(lines: seq<string>, i: nat)
    requires i < |lines|
    ensures NonWs(Unindent(lines[i], CommonIndentation(lines))) == NonWs(lines[i])
  {
    hide NonWs, CommonFrom, Blank, IsWhitespace;
    if !Blank(lines[i]) { CommonIsPrefix(lines, i); }
    var common := CommonIndentation(lines);
    if common <= lines[i] {
      if Blank(lines[i]) {
        BlankIsAllSpace(lines[i]);
        assert AllSpace(lines[i][|common|..]);
        NonWsSpace(lines[i]);
        NonWsSpace(lines[i][|common|..]);
      } else {
        IndentationIsSpace(lines[i]);
        assert forall k :: 0 <= k < |common| ==> common[k] == Indentation(lines[i])[k];
        NonWsSpace(common);
        NonWsCut(lines[i], |common|);
        assert lines[i][..|common|] == common;
      }
    }
  }

  /** The indentation that is taken off a block is all that is taken off its lines. */
  lemma UndentedIs(raw: seq<string>, i: nat)
    requires i < |raw| && !Blank(AsWritten(raw, true)[i])
    ensures AsWritten(raw, true)[i] == CommonIndentation(AsWritten(raw, true)) + Written(raw, true)[i]
  {
    hide AfterMarkersAsWritten, CommonFrom, Blank, Indentation;
    var lines := AsWritten(raw, true);
    CommonIsPrefix(lines, i);
    IndentationIsSpace(lines[i]);
    var common := CommonIndentation(lines);
    assert common <= lines[i] by {
      assert forall k :: 0 <= k < |common| ==> common[k] == Indentation(lines[i])[k] == lines[i][k];
    }
    assert lines[i] == common + lines[i][|common|..];
  }

  /** A line is indented that begins with a space or a tab and holds something. */
  lemma IndentedIff(line: string)
    ensures KindOf(line) == Indented <==> Indentation(line) != "" && !AllSpace(line)
    ensures KindOf(line) == Empty <==> AllSpace(line)
    ensures KindOf(line) == Brace <==> "}" <= line
  {
    BlankIsAllSpace(line);
    if "}" <= line { assert line[0] == '}' && !IsWhitespace(line[0]); }
  }
}
