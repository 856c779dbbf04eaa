/** Which log events are written: `warn,codegloss_lsp=debug`. */
module Filter {
  import opened Preserve
  import opened Protect
  import opened Text
  import opened Wrappers

  /** From off, 0, to trace, 5. */
  type Level = n: nat | n <= 5

  /** How levels are spelled. */
  type Spelling = string -> Option<Level>

  datatype Target = Target(prefix: string, level: Level)

  datatype Filter = Filter(default: Option<Level>, targets: seq<Target>)

  // ----- one directive

  datatype Directive = Everything(level: Level) | Named(target: string, level: Level)

  /** One directive, or nothing if it cannot be read. */
  function Read(spelled: Spelling, directive: string): Option<Directive> {
    var at := Find('=', directive);
    if at.None? then
      var level := spelled(directive);
      if level.None? then None else Some(Everything(level.value))
    else
      var target := Trim(directive[..at.value]);
      var level := spelled(Trim(directive[at.value + 1..]));
      if target == "" || level.None? then None else Some(Named(target, level.value))
  }

  // ----- the whole string

  /** `text` cut at the commas. */
  function Pieces(text: string): (r: seq<string>)
    ensures r != []
    decreases |text|
  {
    var at := Find(',', text);
    if at.None? then [text] else [text[..at.value]] + Pieces(text[at.value + 1..])
  }

  /** The pieces with a comma between two. */
  function Rejoined(pieces: seq<string>): string
    requires pieces != []
  {
    if |pieces| == 1 then pieces[0] else pieces[0] + "," + Rejoined(pieces[1..])
  }

  /** The text is cut at every comma, and nowhere else. */
  lemma {:induction false} PiecesAre(text: string)
    ensures Rejoined(Pieces(text)) == text
    ensures forall i :: 0 <= i < |Pieces(text)| ==> ',' !in Pieces(text)[i]
    decreases |text|
  {
    FindFirst(',', text);
    var at := Find(',', text);
    if at.Some? {
      var rest := Pieces(text[at.value + 1..]);
      PiecesAre(text[at.value + 1..]);
      assert ([text[..at.value]] + rest)[1..] == rest;
      assert text == text[..at.value] + "," + text[at.value + 1..];
    }
  }

  function IndexOf(targets: seq<Target>, prefix: string): (r: nat)
    ensures r <= |targets|
    ensures r < |targets| ==> targets[r].prefix == prefix
    ensures forall i :: 0 <= i < r ==> targets[i].prefix != prefix
  {
    if targets == [] || targets[0].prefix == prefix then 0 else 1 + IndexOf(targets[1..], prefix)
  }

  function Apply(f: Filter, d: Directive): Filter {
    match d
    case Everything(level) => f.(default := Some(level))
    case Named(target, level) =>
      var i := IndexOf(f.targets, target);
      if i < |f.targets| then f.(targets := f.targets[i := Target(target, level)])
      else f.(targets := f.targets + [Target(target, level)])
  }

  /** What the pieces say one after the other, or the first that cannot be read. */
  function ReadAll(spelled: Spelling, pieces: seq<string>): Result<Filter, string> {
    if pieces == [] then Ok(Filter(None, []))
    else
      var before := ReadAll(spelled, pieces[..|pieces| - 1]);
      var directive := Trim(pieces[|pieces| - 1]);
      if before.Err? || directive == "" then before
      else
        var d := Read(spelled, directive);
        if d.None? then Err(directive) else Ok(Apply(before.value, d.value))
  }

  method Parse(spelled: Spelling, text: string) returns (r: Result<Filter, string>)
    ensures r == ReadAll(spelled, Pieces(text))
  {
    hide Trim, Pieces, Find;
    var pieces := Pieces(text);
    var filter := Filter(None, []);
    for i := 0 to |pieces|
      invariant ReadAll(spelled, pieces[..i]) == Ok(filter)
    {
      assert pieces[..i + 1][..i] == pieces[..i];
      var directive := Trim(pieces[i]);
      if directive == "" {
        continue;
      }
      var at := Find('=', directive);
      var level: Option<Level>;
      if at.None? {
        level := spelled(directive);
        if level.None? {
          FirstError(spelled, pieces, i + 1);
          return Err(directive);
        }
        filter := filter.(default := level);
        continue;
      }
      var target := Trim(directive[..at.value]);
      level := spelled(Trim(directive[at.value + 1..]));
      if target == "" || level.None? {
        FirstError(spelled, pieces, i + 1);
        return Err(directive);
      }
      var known := 0;
      while known < |filter.targets| && filter.targets[known].prefix != target
        invariant 0 <= known <= |filter.targets|
        invariant forall k :: 0 <= k < known ==> filter.targets[k].prefix != target
      {
        known := known + 1;
      }
      assert known == IndexOf(filter.targets, target);
      if known < |filter.targets| {
        filter := filter.(targets := filter.targets[known := Target(target, level.value)]);
      } else {
        filter := filter.(targets := filter.targets + [Target(target, level.value)]);
      }
    }
    assert pieces[..|pieces|] == pieces;
    return Ok(filter);
  }

  lemma {:induction false} FirstError(spelled: Spelling, pieces: seq<string>, n: nat)
    requires n <= |pieces| && ReadAll(spelled, pieces[..n]).Err?
    ensures ReadAll(spelled, pieces) == ReadAll(spelled, pieces[..n])
    decreases |pieces|
  {
    hide Trim, Read;
    if n < |pieces| {
      var before := pieces[..|pieces| - 1];
      assert before[..n] == pieces[..n];
      FirstError(spelled, before, n);
    } else {
      assert pieces[..n] == pieces;
    }
  }

  /** Targets are named once each, and named at all. */
  ghost predicate Valid(f: Filter) {
    && (forall i :: 0 <= i < |f.targets| ==> f.targets[i].prefix != "")
    && (forall i, j :: 0 <= i < j < |f.targets| ==> f.targets[i].prefix != f.targets[j].prefix)
  }

  lemma {:induction false} ParsedIsValid(spelled: Spelling, pieces: seq<string>)
    ensures ReadAll(spelled, pieces).Ok? ==> Valid(ReadAll(spelled, pieces).value)
  {
    hide Trim, Find;
    if pieces != [] { ParsedIsValid(spelled, pieces[..|pieces| - 1]); }
  }

  /** The level the last of the directives that name `target` gives it, as they are written. */
  function LastSaid(spelled: Spelling, pieces: seq<string>, target: string): Option<Level> {
    if pieces == [] then None
    else
      var d := Read(spelled, Trim(pieces[|pieces| - 1]));
      if Trim(pieces[|pieces| - 1]) != "" && d.Some? && d.value.Named? && d.value.target == target then Some(d.value.level)
      else LastSaid(spelled, pieces[..|pieces| - 1], target)
  }

  /** The level the last bare one gives everything else. */
  function LastDefault(spelled: Spelling, pieces: seq<string>): Option<Level> {
    if pieces == [] then None
    else
      var d := Read(spelled, Trim(pieces[|pieces| - 1]));
      if Trim(pieces[|pieces| - 1]) != "" && d.Some? && d.value.Everything? then Some(d.value.level)
      else LastDefault(spelled, pieces[..|pieces| - 1])
  }

  function LevelOf(f: Filter, target: string): Option<Level> {
    var i := IndexOf(f.targets, target); if i < |f.targets| then Some(f.targets[i].level) else None
  }

  lemma ApplySays(f: Filter, d: Directive, target: string)
    ensures LevelOf(Apply(f, d), target) ==
      if d.Named? && d.target == target then Some(d.level) else LevelOf(f, target)
  {
    hide IndexOf;
    if d.Named? {
      var i, j, g := IndexOf(f.targets, d.target), IndexOf(f.targets, target), Apply(f, d).targets;
      if target == d.target {
        IndexIs(g, target, i);
      } else if j < |f.targets| {
        IndexIs(g, target, j);
      } else {
        IndexIs(g, target, |g|);
      }
    }
  }

  /** The index found is the one with nothing of that name in front of it. */
  lemma IndexIs(targets: seq<Target>, prefix: string, i: nat)
    requires i <= |targets| && (i < |targets| ==> targets[i].prefix == prefix)
    requires forall k :: 0 <= k < i ==> targets[k].prefix != prefix
    ensures IndexOf(targets, prefix) == i
  {
  }

  /** A string that can be read says of each target, and of everything else, what its last directive for
    * it says; it cannot be read exactly when some directive in it cannot. */
  lemma {:induction false} LastOneWins(spelled: Spelling, pieces: seq<string>, target: string)
    ensures var r := ReadAll(spelled, pieces);
      && (r.Ok? <==> forall i :: 0 <= i < |pieces| && Trim(pieces[i]) != "" ==> Read(spelled, Trim(pieces[i])).Some?)
      && (r.Ok? ==> LevelOf(r.value, target) == LastSaid(spelled, pieces, target)
                    && r.value.default == LastDefault(spelled, pieces))
  {
    hide Trim, Read, IndexOf;
    if pieces != [] {
      var k := |pieces| - 1;
      LastOneWins(spelled, pieces[..k], target);
      var before, d := ReadAll(spelled, pieces[..k]), Read(spelled, Trim(pieces[k]));
      if before.Ok? && d.Some? { ApplySays(before.value, d.value, target); }
    } else {
      NothingSaid(target);
    }
  }

  lemma NothingSaid(target: string)
    ensures LevelOf(Filter(None, []), target).None?
  {
  }

  // ----- what is written

  /** The last of the longest prefixes of `target` among `targets`. */
  function Longest(targets: seq<Target>, target: string): (r: Option<Target>)
    ensures r.Some? ==> r.value in targets && r.value.prefix <= target
  {
    if targets == [] then None
    else
      var best, next := Longest(targets[..|targets| - 1], target), targets[|targets| - 1];
      if !StartsWith(target, next.prefix) then best
      else if best.Some? && |best.value.prefix| > |next.prefix| then best
      else Some(next)
  }

  function Allowed(f: Filter, target: string): Option<Level> {
    var longest := Longest(f.targets, target);
    if longest.Some? then Some(longest.value.level) else f.default
  }

  /** An event that is written; its level is not off. */
  predicate Allows(f: Filter, target: string, level: Level) {
    Allowed(f, target).Some? && Allowed(f, target).value >= level
  }

  function Loudest(targets: seq<Target>): Level {
    if targets == [] then 0
    else
      var before, next := Loudest(targets[..|targets| - 1]), targets[|targets| - 1].level;
      if next >= before then next else before
  }

  function MaxLevel(f: Filter): Level {
    var loudest := Loudest(f.targets);
    if f.default.Some? && f.default.value >= loudest then f.default.value else loudest
  }

  /** `t` is the longest of `targets` that `target` begins with. */
  ghost predicate IsLongest(targets: seq<Target>, target: string, t: Target) {
    && t in targets && t.prefix <= target
    && forall s :: s in targets && s.prefix <= target ==> |s.prefix| <= |t.prefix|
  }

  lemma {:induction false} LongestIs(targets: seq<Target>, target: string)
    ensures var r := Longest(targets, target);
      if r.Some? then IsLongest(targets, target, r.value)
      else forall s :: s in targets ==> !(s.prefix <= target)
  {
    if targets != [] { LongestIs(targets[..|targets| - 1], target); }
  }

  /** With targets named once, one of the longest is the longest. */
  lemma LongestIsUnique(f: Filter, target: string, t: Target)
    requires Valid(f) && IsLongest(f.targets, target, t)
    ensures Longest(f.targets, target) == Some(t)
  {
    LongestIs(f.targets, target);
    var r := Longest(f.targets, target).value;
    assert r.prefix == target[..|r.prefix|] && t.prefix == target[..|t.prefix|];
    var i :| 0 <= i < |f.targets| && f.targets[i] == r;
    var j :| 0 <= j < |f.targets| && f.targets[j] == t;
  }

  /** An event is decided by the one longest prefix of its target, or by the default where there is none;
    * the order of the directives has no say in it. */
  lemma AllowsExactlyWhen(f: Filter, target: string, level: Level)
    requires Valid(f)
    ensures Allows(f, target, level) <==>
      || (exists t :: IsLongest(f.targets, target, t) && t.level >= level)
      || ((forall s :: s in f.targets ==> !(s.prefix <= target)) && f.default.Some? && f.default.value >= level)
  {
    LongestIs(f.targets, target);
    if t :| IsLongest(f.targets, target, t) { LongestIsUnique(f, target, t); }
  }

  lemma OrderDoesNotMatter(f: Filter, g: Filter, target: string, level: Level)
    requires Valid(f) && Valid(g) && f.default == g.default && forall t :: t in f.targets <==> t in g.targets
    ensures Allows(f, target, level) == Allows(g, target, level)
  {
    LongestIs(f.targets, target);
    LongestIs(g.targets, target);
    if t :| IsLongest(f.targets, target, t) {
      assert IsLongest(g.targets, target, t);
      LongestIsUnique(f, target, t);
      LongestIsUnique(g, target, t);
    }
  }

  lemma {:induction false} LoudestIs(targets: seq<Target>)
    ensures forall t :: t in targets ==> t.level <= Loudest(targets)
    ensures Loudest(targets) > 0 ==> exists t :: t in targets && t.level == Loudest(targets)
  {
    if targets != [] { LoudestIs(targets[..|targets| - 1]); }
  }

  /** No event louder than the maximum is written, and one at the maximum is: for the target that is
    * named with it, or, where that is the default, for a target nothing is said of. */
  lemma MaxLevelIsExact(f: Filter)
    requires Valid(f)
    ensures forall target: string, level: Level :: Allows(f, target, level) ==> level <= MaxLevel(f)
    ensures MaxLevel(f) > 0 ==> exists target :: Allows(f, target, MaxLevel(f))
  {
    LoudestIs(f.targets);
    var most := MaxLevel(f);
    if most > 0 {
      if f.default == Some(most) {
        assert Longest(f.targets, "").None? by { LongestIs(f.targets, ""); }
        assert Allows(f, "", most);
      } else {
        var t :| t in f.targets && t.level == most;
        assert IsLongest(f.targets, t.prefix, t);
        LongestIsUnique(f, t.prefix, t);
        assert Allows(f, t.prefix, most);
      }
    }
  }
}
