/** Editor coordinates, in UTF-16 code units, and byte offsets, in UTF-8. */
module Positions {
  import opened Wrappers

  const U32: nat := 0x1_0000_0000

  datatype Position = Position(line: nat, character: nat)
  {
    predicate Before(p: Position) { line < p.line || (line == p.line && character < p.character) }
  }

  function Utf8Length(c: char): nat {
    var n := c as int;
    if n < 0x80 then 1 else if n < 0x800 then 2 else if n < 0x1_0000 then 3 else 4
  }

  function Utf16Length(c: char): nat { if c as int < 0x1_0000 then 1 else 2 }

  /** `n` bytes of UTF-8 hold the scalar value: seven bits in one; in more, six in each but the first, which
    * gives up a bit for each byte and one. */
  predicate HeldIn(c: char, n: nat) {
    && 1 <= n <= 4
    && c as int < (if n == 1 then 0x80 else if n == 2 then 32 * 64 else if n == 3 then 16 * 64 * 64 else 8 * 64 * 64 * 64)
  }

  /** A character takes as few bytes as hold it, and a surrogate pair where one unit of 16 bits does not. */
  lemma LengthsAre(c: char)
    ensures HeldIn(c, Utf8Length(c)) && forall n: nat :: HeldIn(c, n) ==> Utf8Length(c) <= n
    ensures Utf16Length(c) == if c as int <= 0xFFFF then 1 else 2
  {
  }

  /** Bytes of the first `k` characters. */
  function Bytes(text: string, k: nat): nat
    requires k <= |text|
  {
    if k == 0 then 0 else Bytes(text, k - 1) + Utf8Length(text[k - 1])
  }

  /** UTF-16 code units of `text[from..to]`. */
  function Units(text: string, from: nat, to: nat): nat
    requires from <= to <= |text|
  {
    if from == to then 0 else Units(text, from, to - 1) + Utf16Length(text[to - 1])
  }

  /** Newlines in the first `k` characters. */
  function LinesBefore(text: string, k: nat): nat
    requires k <= |text|
  {
    if k == 0 then 0 else LinesBefore(text, k - 1) + if text[k - 1] == '\n' then 1 else 0
  }

  /** Where the line of character `k` begins. */
  function LineStart(text: string, k: nat): (r: nat)
    requires k <= |text|
    ensures r <= k
  {
    if k == 0 || text[k - 1] == '\n' then k else LineStart(text, k - 1)
  }

  /** The first newline at or behind `from`, or the end of the text. */
  function LineEnd(text: string, from: nat): (r: nat)
    requires from <= |text|
    ensures from <= r <= |text|
    decreases |text| - from
  {
    if from == |text| || text[from] == '\n' then from else LineEnd(text, from + 1)
  }

  /** Where line `line` begins, if the text has one. */
  function StartOf(text: string, line: nat): (r: Option<nat>)
    ensures r.Some? ==> r.value <= |text|
  {
    if line == 0 then Some(0)
    else
      var start := StartOf(text, line - 1);
      if start.None? then None
      else
        var end := LineEnd(text, start.value);
        if end == |text| then None else Some(end + 1)
  }

  /** The first place in `text[k..end]` with at least `character` units in front of it, or `end`. */
  function Column(text: string, start: nat, end: nat, k: nat, character: nat): (r: nat)
    requires start <= k <= end <= |text|
    ensures k <= r <= end
    decreases end - k
  {
    if k == end || Units(text, start, k) >= character then k else Column(text, start, end, k + 1, character)
  }

  function IndexAt(text: string, p: Position): (r: Option<nat>)
    ensures r.Some? ==> r.value <= |text|
  {
    var start := StartOf(text, p.line);
    if start.None? then None
    else Some(Column(text, start.value, LineEnd(text, start.value), start.value, p.character))
  }

  /** The byte offset of a position; past the end of its line it is the end of the line. */
  function OffsetAt(text: string, p: Position): Option<nat> {
    var k := IndexAt(text, p);
    if k.None? then None else Some(Bytes(text, k.value))
  }

  method ByteOffsetAt(text: string, p: Position) returns (r: Option<nat>)
    ensures r == OffsetAt(text, p)
  {
    var lineStart, bytes := 0, 0;
    for i := 0 to p.line
      invariant lineStart <= |text| && StartOf(text, i) == Some(lineStart) && bytes == Bytes(text, lineStart)
    {
      var k := lineStart;
      while k < |text| && text[k] != '\n'
        invariant lineStart <= k <= |text| && LineEnd(text, lineStart) == LineEnd(text, k)
        invariant bytes == Bytes(text, k)
      {
        bytes := bytes + Utf8Length(text[k]);
        k := k + 1;
      }
      if k == |text| {
        NoLineBeyond(text, i + 1, p.line);
        return None;
      }
      bytes := bytes + Utf8Length(text[k]);
      lineStart := k + 1;
    }
    var lineEnd := LineEnd(text, lineStart);
    var utf16 := 0;
    for k := lineStart to lineEnd
      invariant utf16 == Units(text, lineStart, k) && bytes == Bytes(text, k)
      invariant Column(text, lineStart, lineEnd, lineStart, p.character) == Column(text, lineStart, lineEnd, k, p.character)
    {
      if utf16 >= p.character {
        return Some(bytes);
      }
      utf16 := utf16 + Utf16Length(text[k]);
      bytes := bytes + Utf8Length(text[k]);
    }
    return Some(bytes);
  }

  lemma {:induction false} NoLineBeyond(text: string, line: nat, more: nat)
    requires line <= more && StartOf(text, line).None?
    ensures StartOf(text, more).None?
    decreases more
  {
    if line < more { NoLineBeyond(text, line, more - 1); }
  }

  /** The character that begins at byte `offset`, if one does, or the end of the text. */
  function CharacterAt(text: string, k: nat, offset: nat): (r: Option<nat>)
    requires k <= |text|
    ensures r.Some? ==> r.value <= |text| && Bytes(text, r.value) == offset
    decreases |text| - k
  {
    if Bytes(text, k) == offset then Some(k)
    else if k == |text| then None
    else CharacterAt(text, k + 1, offset)
  }

  /** The coordinates of the place in front of character `k`. */
  function Place(text: string, k: nat): Position
    requires k <= |text|
  {
    Position(LinesBefore(text, k), Units(text, LineStart(text, k), k))
  }

  /** The coordinates of a byte offset; none between the bytes of a character. The casts truncate. */
  function PositionAt(text: string, offset: nat): Option<Position> {
    var k := CharacterAt(text, 0, offset);
    if k.None? then None
    else
      var p := Place(text, k.value);
      Some(Position(p.line % U32, p.character % U32))
  }

  // ----- offsets and characters

  lemma {:induction false} BytesGrow(text: string, j: nat, k: nat)
    requires j < k <= |text|
    ensures Bytes(text, j) < Bytes(text, k)
    decreases k
  {
    if j < k - 1 { BytesGrow(text, j, k - 1); }
  }

  lemma {:induction false} CharacterFound(text: string, from: nat, k: nat)
    requires from <= k <= |text|
    ensures CharacterAt(text, from, Bytes(text, k)) == Some(k)
    decreases k - from
  {
    if from < k {
      BytesGrow(text, from, k);
      CharacterFound(text, from + 1, k);
    }
  }

  /** A byte offset has coordinates exactly when it is a character boundary. */
  lemma BoundaryIff(text: string, offset: nat)
    ensures PositionAt(text, offset).Some? <==> exists k: nat :: k <= |text| && Bytes(text, k) == offset
  {
    if k: nat :| k <= |text| && Bytes(text, k) == offset {
      CharacterFound(text, 0, k);
    }
  }

  // ----- lines

  lemma {:induction false} UnitsAdd(text: string, a: nat, b: nat, c: nat)
    requires a <= b <= c <= |text|
    ensures Units(text, a, c) == Units(text, a, b) + Units(text, b, c)
    decreases c
  {
    if b < c { UnitsAdd(text, a, b, c - 1); }
  }

  lemma {:induction false} UnitsGrow(text: string, from: nat, j: nat, k: nat)
    requires from <= j < k <= |text|
    ensures Units(text, from, j) < Units(text, from, k)
    decreases k
  {
    if j < k - 1 { UnitsGrow(text, from, j, k - 1); }
  }

  /** Line `LinesBefore(k)` begins at `LineStart(k)`, and `k` is no further than its end. */
  lemma {:induction false} LineOfCharacter(text: string, k: nat)
    requires k <= |text|
    ensures StartOf(text, LinesBefore(text, k)) == Some(LineStart(text, k))
    ensures k <= LineEnd(text, LineStart(text, k))
    ensures LineEnd(text, LineStart(text, k)) == LineEnd(text, k)
  {
    if k > 0 {
      LineOfCharacter(text, k - 1);
    }
  }

  lemma {:induction false} LinesIn(text: string, start: nat, k: nat)
    requires start <= |text| && start <= k <= LineEnd(text, start)
    requires start == 0 || text[start - 1] == '\n'
    ensures LineStart(text, k) == start && LinesBefore(text, k) == LinesBefore(text, start)
    decreases k
  {
    if start < k {
      NoNewline(text, start, k - 1);
      LinesIn(text, start, k - 1);
    }
  }

  lemma {:induction false} NoNewline(text: string, start: nat, k: nat)
    requires start <= |text| && start <= k < LineEnd(text, start)
    ensures text[k] != '\n'
    decreases k - start
  {
    if start < k { NoNewline(text, start + 1, k); }
  }

  /** What `StartOf` finds is the start of that line. */
  lemma {:induction false} StartIs(text: string, line: nat)
    requires StartOf(text, line).Some?
    ensures var start := StartOf(text, line).value;
      LinesBefore(text, start) == line && (start == 0 || text[start - 1] == '\n')
  {
    if line > 0 {
      StartIs(text, line - 1);
      var before := StartOf(text, line - 1).value;
      var end := LineEnd(text, before);
      EndIsNewline(text, before);
      LinesIn(text, before, end);
    }
  }

  lemma {:induction false} EndIsNewline(text: string, from: nat)
    requires from <= |text|
    ensures LineEnd(text, from) < |text| ==> text[LineEnd(text, from)] == '\n'
    decreases |text| - from
  {
    if from < |text| && text[from] != '\n' { EndIsNewline(text, from + 1); }
  }

  /** Every place up to the end of a line stands on that line. */
  lemma PlaceOnLine(text: string, line: nat, k: nat)
    requires StartOf(text, line).Some? && StartOf(text, line).value <= k <= LineEnd(text, StartOf(text, line).value)
    ensures Place(text, k) == Position(line, Units(text, StartOf(text, line).value, k))
  {
    StartIs(text, line);
    LinesIn(text, StartOf(text, line).value, k);
  }

  // ----- columns

  lemma {:induction false} ColumnIs(text: string, start: nat, end: nat, k: nat, character: nat)
    requires start <= k <= end <= |text|
    ensures var r := Column(text, start, end, k, character);
      && (r < end ==> Units(text, start, r) >= character)
      && forall j :: k <= j < r ==> Units(text, start, j) < character
    decreases end - k
  {
    if k < end && Units(text, start, k) < character { ColumnIs(text, start, end, k + 1, character); }
  }

  lemma ColumnFound(text: string, start: nat, end: nat, k: nat)
    requires start <= k <= end <= |text|
    ensures Column(text, start, end, start, Units(text, start, k)) == k
  {
    ColumnIs(text, start, end, start, Units(text, start, k));
    var r := Column(text, start, end, start, Units(text, start, k));
    if r < k { UnitsGrow(text, start, r, k); }
  }

  // ----- there and back

  /** The coordinates of a place fit in 32 bits. */
  predicate Addressable(text: string, k: nat)
    requires k <= |text|
  {
    Place(text, k).line < 0x1_0000_0000 && Place(text, k).character < 0x1_0000_0000
  }

  /** From a character boundary to its coordinates and back: exactly where those fit in 32 bits. */
  lemma RoundTrip(text: string, k: nat)
    requires k <= |text|
    ensures var offset := Bytes(text, k);
      var p := PositionAt(text, offset);
      && p.Some?
      && (OffsetAt(text, p.value) == Some(offset) <==> Addressable(text, k))
      && (Addressable(text, k) ==> p.value == Place(text, k))
  {
    hide Bytes, Units, LineEnd, LineStart, LinesBefore, Column, StartOf, CharacterAt, IndexAt;
    CharacterFound(text, 0, k);
    PlaceFound(text, k);
    var p := PositionAt(text, Bytes(text, k)).value;
    if OffsetAt(text, p) == Some(Bytes(text, k)) {
      SameCharacter(text, IndexAt(text, p).value, k);
      Lands(text, p);
    }
  }

  lemma SameCharacter(text: string, j: nat, k: nat)
    requires j <= |text| && k <= |text| && Bytes(text, j) == Bytes(text, k)
    ensures j == k
  {
    if j < k { BytesGrow(text, j, k); }
    if k < j { BytesGrow(text, k, j); }
  }

  lemma PlaceFound(text: string, k: nat)
    requires k <= |text|
    ensures IndexAt(text, Place(text, k)) == Some(k)
  {
    hide Bytes, Units, LineEnd, LineStart, LinesBefore, Column, StartOf, CharacterAt;
    LineOfCharacter(text, k);
    ColumnFound(text, LineStart(text, k), LineEnd(text, LineStart(text, k)), k);
  }

  /** A position leads to a place on its own line: to itself, if it is one; to the end of the line, if
    * it is past it; and if it falls between the two units of a character, to behind that character. */
  lemma Lands(text: string, p: Position)
    requires IndexAt(text, p).Some?
    ensures var k, start := IndexAt(text, p).value, StartOf(text, p.line).value;
      var end := LineEnd(text, start);
      && start <= k <= end && Place(text, k).line == p.line
      && (|| Place(text, k).character == p.character
          || (k == end && Place(text, k).character < p.character)
          || (start < k && Place(text, k).character == p.character + 1 && Utf16Length(text[k - 1]) == 2))
  {
    var start := StartOf(text, p.line).value;
    var end := LineEnd(text, start);
    var k := IndexAt(text, p).value;
    ColumnIs(text, start, end, start, p.character);
    PlaceOnLine(text, p.line, k);
    if start < k { assert Units(text, start, k - 1) < p.character; }
  }

  /** A position comes back from its offset exactly when it is a place in the text. */
  lemma BackExactlyWhen(text: string, p: Position)
    requires IndexAt(text, p).Some?
    ensures Place(text, IndexAt(text, p).value) == p <==> exists k :: 0 <= k <= |text| && Place(text, k) == p
  {
    if k :| 0 <= k <= |text| && Place(text, k) == p {
      PlaceFound(text, k);
    }
  }

  // ----- order

  lemma {:induction false} StartsGrow(text: string, line: nat, more: nat)
    requires line < more && StartOf(text, more).Some?
    ensures StartOf(text, line).Some?
    ensures LineEnd(text, StartOf(text, line).value) < StartOf(text, more).value
    decreases more
  {
    if line < more - 1 { StartsGrow(text, line, more - 1); }
  }

  /** A later position never has a smaller offset. */
  lemma OffsetsGrow(text: string, p: Position, q: Position)
    requires p.Before(q) && OffsetAt(text, q).Some?
    ensures OffsetAt(text, p).Some? && OffsetAt(text, p).value <= OffsetAt(text, q).value
  {
    if p.line < q.line { StartsGrow(text, p.line, q.line); }
    var i, j := IndexAt(text, p).value, IndexAt(text, q).value;
    if p.line == q.line {
      var start := StartOf(text, p.line).value;
      var end := LineEnd(text, start);
      ColumnIs(text, start, end, start, p.character);
      ColumnIs(text, start, end, start, q.character);
      assert i <= j;
    }
    if i < j { BytesGrow(text, i, j); }
  }

  /** A later place has later coordinates. */
  lemma PlacesGrow(text: string, j: nat, k: nat)
    requires j < k <= |text|
    ensures Place(text, j).Before(Place(text, k))
  {
    LineOfCharacter(text, j);
    LineOfCharacter(text, k);
    var line := LinesBefore(text, k);
    LinesGrow(text, j, k);
    if LinesBefore(text, j) == line {
      UnitsGrow(text, LineStart(text, k), j, k);
    }
  }

  lemma {:induction false} LinesGrow(text: string, j: nat, k: nat)
    requires j <= k <= |text|
    ensures LinesBefore(text, j) <= LinesBefore(text, k)
    decreases k
  {
    if j < k { LinesGrow(text, j, k - 1); }
  }

  // ----- the comment under a position

  /** A block found under an offset has a range that begins at or in front of it and ends behind it. */
  lemma RangeHolds(text: string, start: nat, k: nat, end: nat)
    requires start <= k < end <= |text|
    ensures !Place(text, k).Before(Place(text, start)) && Place(text, k).Before(Place(text, end))
  {
    if start < k { PlacesGrow(text, start, k); }
    PlacesGrow(text, k, end);
  }
}
