/** What a line opens with, by how it is written: tags with their arguments, Markdown markers, comments in code. */
module Leads {
  import opened Decorations
  import DocBlock
  import opened Examples
  import opened Markers
  import opened Protect
  import opened SpanRules
  import opened Text
  import opened Wrappers

  /** Text that does not begin in white space. */
  predicate Flush(s: string) { s == "" || !IsWhitespace(s[0]) }

  // ----- tags, and what they take

  function NameTags(): set<string> {
    {"@param", "@arg", "@argument", "@property", "@prop", "@typedef", "@callback", "@template", "@typeParam"}
  }

  function OpaqueTags(): set<string> {
    {"@alias", "@augments", "@author", "@borrows", "@category", "@copyright", "@default", "@extends", "@lends", "@license",
     "@memberOf", "@memberof", "@mixes", "@module", "@name", "@requires", "@since", "@version"}
  }

  lemma NamesAre(tag: string)
    ensures TakesAName(tag) <==> tag in NameTags()
  {
  }

  lemma OpaqueAre(tag: string)
    ensures IsOpaque(tag) <==> tag in OpaqueTags()
  {
  }

  lemma NamesAreNotOpaque(tag: string)
    requires tag in NameTags()
    ensures tag !in OpaqueTags()
  {
  }

  lemma OthersAreNot(tag: string)
    requires tag in {"@throws", "@exception", "@example"}
    ensures tag !in OpaqueTags() && tag !in NameTags()
  {
  }

  lemma ArgumentsAre(tag: string)
    ensures TagArgumentsOf(tag) == NameArgument <==> tag in NameTags()
    ensures TagArgumentsOf(tag) == TypeOrName <==> tag in {"@throws", "@exception"}
    ensures TagArgumentsOf(tag) == OpaqueArgument <==> tag in OpaqueTags()
    ensures TagArgumentsOf(tag) == ExampleBody <==> tag == "@example"
  {
    hide TakesAName, IsOpaque, NameTags, OpaqueTags;
    NamesAre(tag);
    OpaqueAre(tag);
    if tag in NameTags() { NamesAreNotOpaque(tag); }
    if tag in {"@throws", "@exception", "@example"} { OthersAreNot(tag); }
  }

  /** The tag is followed by a name: always, or where no type stands in its place. */
  predicate TakesName(tag: string, typed: bool) {
    tag in NameTags() || (tag in {"@throws", "@exception"} && !typed)
  }

  // ----- one part of the lead after the other

  lemma BalancedFurther(s: string, n: nat, more: string)
    requires Balanced(s, n)
    ensures Balanced(s + more, n)
  {
    var t := s + more;
    forall i | 0 <= i <= n ensures Depth(t[..i]) == Depth(s[..i]) { assert t[..i] == s[..i]; }
  }

  lemma CutBehind(a: string, gap: string, rest: string)
    requires AllSpace(gap) && Flush(rest)
    ensures (a + gap + rest)[..|a|] == a && TrimStart((a + gap + rest)[|a|..]) == rest
  {
    assert (a + gap + rest)[|a|..] == gap + rest;
    SpaceInFront(gap, rest);
  }

  /** A type is a pair of braces that does not hold an inline tag. */
  predicate IsType(t: string) { t != "" && !("{@" <= t) && BracedSpan(t) == Some(|t|) }

  lemma TypeTaken(lead: string, t: string, gap: string, rest: string)
    requires IsType(t) && AllSpace(gap) && Flush(rest)
    ensures TypeAnnotation(t + gap + rest) == Some(|t|)
    ensures TakeType(lead, t + gap + rest) == (lead + t + " ", rest)
  {
    BracedSpanIff(t, |t|);
    BalancedFurther(t, |t|, gap + rest);
    assert t + gap + rest == t + (gap + rest);
    BracedSpanIff(t + gap + rest, |t|);
    var all := t + gap + rest;
    assert all[0] == t[0] && all[1] == t[1];
    hide BracedSpan, TrimStart;
    CutBehind(t, gap, rest);
  }

  predicate IsWord(w: string) { w != "" && forall i :: 0 <= i < |w| ==> !IsWhitespace(w[i]) }

  lemma {:induction false} FirstWordIs(w: string, rest: string)
    requires forall i :: 0 <= i < |w| ==> !IsWhitespace(w[i])
    requires rest == "" || IsWhitespace(rest[0])
    ensures Markers.FirstWord(w + rest) == |w|
  {
    hide IsWhitespace;
    if w == "" {
      assert w + rest == rest;
    } else {
      assert (w + rest)[1..] == w[1..] + rest;
      FirstWordIs(w[1..], rest);
    }
  }

  lemma NameTaken(lead: string, name: string, gap: string, rest: string)
    requires IsWord(name) && AllSpace(gap) && Flush(rest) && (gap == "" ==> rest == "")
    ensures name + gap + rest != "" && TakeName(lead, name + gap + rest) == (lead + name + " ", rest)
  {
    hide IsWhitespace, TrimStart;
    assert name + gap + rest == name + (gap + rest);
    assert gap + rest != "" ==> gap != "" && (gap + rest)[0] == gap[0];
    FirstWordIs(name, gap + rest);
    CutBehind(name, gap, rest);
  }

  lemma HyphenTaken(lead: string, gap: string, rest: string)
    requires AllSpace(gap) && Flush(rest)
    ensures TakeHyphen(lead, "- " + gap + rest) == (lead + "- ", rest)
  {
    var all := "- " + gap + rest;
    assert all[0] == '-' && all[1] == ' ' && "- " <= all;
    hide TrimStart;
    CutBehind("- ", gap, rest);
  }

  // ----- a tag line

  /** A tag line, as it is written: a type, a name and a hyphen, or none, with white space behind each. */
  datatype TagLine = TagLine(tag: string, gap: string, typed: string, afterType: string, name: string, afterName: string,
                             hyphen: bool, afterHyphen: string, prose: string)
  {
    function FromHyphen(): string { if hyphen then "- " + afterHyphen + prose else prose }

    function FromName(): string { if name == "" then FromHyphen() else name + afterName + FromHyphen() }

    function FromType(): string { if typed == "" then FromName() else typed + afterType + FromName() }

    function Written(): string { tag + gap + FromType() }

    /** What stands where a type, a name or a hyphen may be is one, or is none. */
    ghost predicate Reads() {
      && IsTag(tag + gap + FromType(), |tag|)
      && AllSpace(gap) && AllSpace(afterType) && AllSpace(afterName) && AllSpace(afterHyphen)
      && Flush(prose) && Flush(FromHyphen()) && Flush(FromName()) && Flush(FromType())
      && (if typed != "" then IsType(typed) else TypeAnnotation(FromName()).None?)
      && (if name != "" then TakesName(tag, typed != "") && IsWord(name) && (afterName == "" ==> FromHyphen() == "")
          else !TakesName(tag, typed != "") || FromHyphen() == "")
      && (!hyphen ==> !("- " <= prose))
    }

    /** The line without white space that is not needed, as far as it is not prose. */
    function Lead(): string {
      tag + " " + (if typed == "" then "" else typed + " ") + (if name == "" then "" else name + " ")
      + if hyphen then "- " else ""
    }
  }

  lemma TagIsRead(l: TagLine)
    requires l.Reads()
    ensures LeadingTag(l.Written()) == Some((l.tag, l.FromType()))
  {
    DocTagIff(l.Written(), |l.tag|);
    hide DocTag, IsTag, TypeAnnotation, TrimStart;
    CutBehind(l.tag, l.gap, l.FromType());
  }

  lemma TypeIsRead(l: TagLine, lead: string)
    requires l.Reads()
    ensures TypeAnnotation(l.FromType()).Some? <==> l.typed != ""
    ensures TakeType(lead, l.FromType()) == (lead + (if l.typed == "" then "" else l.typed + " "), l.FromName())
  {
    hide IsTag, TypeAnnotation, IsType;
    if l.typed != "" {
      TypeTaken(lead, l.typed, l.afterType, l.FromName());
      assert lead + l.typed + " " == lead + (l.typed + " ");
    } else {
      assert lead + "" == lead;
    }
  }

  lemma NameIsRead(l: TagLine, lead: string)
    requires l.Reads()
    ensures (if TakesName(l.tag, l.typed != "") then TakeName(lead, l.FromName()) else (lead, l.FromName()))
      == (lead + (if l.name == "" then "" else l.name + " "), l.FromHyphen())
  {
    hide IsTag, TypeAnnotation, IsType, IsWord, NameTags;
    if l.name != "" {
      NameTaken(lead, l.name, l.afterName, l.FromHyphen());
      assert lead + l.name + " " == lead + (l.name + " ");
    } else {
      assert lead + "" == lead;
    }
  }

  lemma HyphenIsRead(l: TagLine, lead: string)
    requires l.Reads()
    ensures TakeHyphen(lead, l.FromHyphen()) == (lead + (if l.hyphen then "- " else ""), l.prose)
  {
    hide IsTag, TypeAnnotation, IsType, IsWord, NameTags;
    if l.hyphen { HyphenTaken(lead, l.afterHyphen, l.prose); } else { assert lead + "" == lead; }
  }

  /** What is lead of a tag line and what is prose: the tag, its type, its name and its hyphen are lead. A tag
    * whose argument is a name, or code, takes the whole line. */
  lemma TagLineReads(l: TagLine)
    requires l.Reads()
    ensures TagLead(l.Written()) ==
      if l.tag in OpaqueTags() || l.tag == "@example" then Some((l.Written(), "")) else Some((l.Lead(), l.prose))
  {
    TagIsRead(l);
    ArgumentsAre(l.tag);
    var lead := l.tag + " ";
    TypeIsRead(l, lead);
    var lead' := lead + if l.typed == "" then "" else l.typed + " ";
    NameIsRead(l, lead');
    var lead'' := lead' + if l.name == "" then "" else l.name + " ";
    HyphenIsRead(l, lead'');
    hide LeadingTag, TypeAnnotation, TakeType, TakeName, TakeHyphen, TagArgumentsOf, NameTags, OpaqueTags, TagLine.Reads, TagLine.Written;
  }

  /** White space in front of a text, cut off. */
  lemma Cut(s: string, n: nat) returns (gap: string, rest: string)
    requires n <= |s|
    ensures s == s[..n] + gap + rest && AllSpace(gap) && Flush(rest) && rest == TrimStart(s[n..])
    ensures n < |s| && !IsWhitespace(s[n]) ==> gap == ""
  {
    var t := s[n..];
    TrimStartIs(t);
    hide TrimStart, IsWhitespace;
    rest := TrimStart(t);
    gap := t[..|t| - |rest|];
    assert gap != "" ==> t[0] == gap[0];
  }

  /** Each line with a tag in front is written so. */
  lemma TagLineIs(content: string) returns (l: TagLine)
    requires exists n: nat :: IsTag(content, n)
    ensures l.Reads() && l.Written() == content
  {
    hide IsTag, TypeAnnotation, IsType, IsWord, TrimStart, IsWhitespace, NameTags;
    var n: nat :| IsTag(content, n);
    TagFits(content, n);
    var tag := content[..n];
    var gap, afterTag := Cut(content, n);
    var typed, afterType, fromName := TypeIn(afterTag);
    var name, afterName, fromHyphen := NameIn(tag, typed, fromName);
    var hyphen, afterHyphen, prose := HyphenIn(fromHyphen);
    l := TagLine(tag, gap, typed, afterType, name, afterName, hyphen, afterHyphen, prose);
  }

  lemma TagFits(content: string, n: nat)
    requires IsTag(content, n)
    ensures 2 <= n <= |content|
  {
  }

  lemma TypeIn(s: string) returns (typed: string, gap: string, rest: string)
    requires Flush(s)
    ensures AllSpace(gap) && Flush(rest)
    ensures s == if typed == "" then rest else typed + gap + rest
    ensures if typed != "" then IsType(typed) else TypeAnnotation(rest).None?
  {
    hide TrimStart, IsWhitespace, BracedSpan;
    if TypeAnnotation(s).Some? {
      var n := TypeAnnotation(s).value;
      gap, rest := Cut(s, n);
      typed := s[..n];
      TypeAlone(s, n);
    } else {
      typed, gap, rest := "", "", s;
    }
  }

  lemma TypeAlone(s: string, n: nat)
    requires TypeAnnotation(s) == Some(n)
    ensures IsType(s[..n])
  {
    BracedSpanIff(s, n);
    forall i | 0 <= i <= n ensures Depth(s[..n][..i]) == Depth(s[..i]) { assert s[..n][..i] == s[..i]; }
    BracedSpanIff(s[..n], n);
    assert s[..n][0] == s[0] && s[..n][1] == s[1];
  }

  lemma NameIn(tag: string, typed: string, s: string) returns (name: string, gap: string, rest: string)
    requires Flush(s)
    ensures AllSpace(gap) && Flush(rest)
    ensures s == if name == "" then rest else name + gap + rest
    ensures if name != "" then TakesName(tag, typed != "") && IsWord(name) && (gap == "" ==> rest == "")
            else !TakesName(tag, typed != "") || rest == ""
  {
    hide TrimStart, IsWhitespace, NameTags;
    if TakesName(tag, typed != "") && s != "" {
      var n := WordIn(s);
      gap, rest := Cut(s, n);
      name := s[..n];
      assert n < |s| ==> (gap + rest)[0] == s[n];
    } else {
      name, gap, rest := "", "", s;
    }
  }

  lemma {:induction false} WordIn(s: string) returns (n: nat)
    ensures n <= |s| && (forall i :: 0 <= i < n ==> !IsWhitespace(s[i])) && (n < |s| ==> IsWhitespace(s[n]))
    ensures s != "" && !IsWhitespace(s[0]) ==> 0 < n
  {
    hide IsWhitespace;
    if s == "" || IsWhitespace(s[0]) {
      n := 0;
    } else {
      var m := WordIn(s[1..]);
      n := m + 1;
      assert forall i :: 1 <= i < |s| ==> s[i] == s[1..][i - 1];
    }
  }

  lemma HyphenIn(s: string) returns (hyphen: bool, gap: string, rest: string)
    requires Flush(s)
    ensures AllSpace(gap) && Flush(rest)
    ensures s == if hyphen then "- " + gap + rest else rest
    ensures !hyphen ==> !("- " <= rest)
  {
    hide TrimStart, IsWhitespace;
    hyphen := "- " <= s;
    if hyphen {
      gap, rest := Cut(s, 2);
      assert s[..2] == "- ";
    } else {
      gap, rest := "", s;
    }
  }

  lemma NoTagNoLead(content: string)
    ensures TagLead(content).Some? <==> exists n: nat :: IsTag(content, n)
  {
    hide IsTag, DocTag, TypeAnnotation, TakeType, TakeName, TakeHyphen, TagArgumentsOf;
    if DocTag(content).Some? { DocTagIff(content, DocTag(content).value); }
    if n: nat :| IsTag(content, n) { DocTagIff(content, n); }
  }

  /** An example begins under the tag `@example`, and no other. */
  lemma ExampleOpens(content: string)
    ensures DocBlock.OpensExample(content) <==>
      "@example" <= content && (|content| > 8 ==> !IsAsciiLetter(content[8]))
  {
    if "@example" <= content && (|content| > 8 ==> !IsAsciiLetter(content[8])) {
      assert content[..8] == "@example";
      assert forall i :: 0 <= i < 8 ==> content[i] == "@example"[i];
      assert IsTag(content, 8);
      DocTagIff(content, 8);
      ArgumentsAre("@example");
    }
    if DocBlock.OpensExample(content) {
      var n := DocTag(content).value;
      DocTagIff(content, n);
      ArgumentsAre(content[..n]);
    }
  }

  // ----- Markdown markers

  /** A bullet, a heading's hashes, or a number with a full stop or a parenthesis. */
  predicate IsListMarker(m: string) {
    || m == "-" || m == "+"
    || (m != "" && forall i :: 0 <= i < |m| ==> m[i] == '#')
    || (|m| >= 2 && m[|m| - 1] in ".)" && forall i :: 0 <= i < |m| - 1 ==> IsDigit(m[i]))
  }

  lemma {:induction false} HashesAre(content: string, from: nat)
    requires from <= |content|
    ensures var n := CountHashes(content, from);
      (forall i :: from <= i < from + n ==> content[i] == '#') && (from + n < |content| ==> content[from + n] != '#')
    decreases |content| - from
  {
    if from < |content| && content[from] == '#' { HashesAre(content, from + 1); }
  }

  lemma {:induction false} DigitsAre(content: string, from: nat)
    requires from <= |content|
    ensures var n := CountDigits(content, from);
      (forall i :: from <= i < from + n ==> IsDigit(content[i])) && (from + n < |content| ==> !IsDigit(content[from + n]))
    decreases |content| - from
  {
    if from < |content| && IsDigit(content[from]) { DigitsAre(content, from + 1); }
  }

  lemma MarkerLengthIs(content: string, n: nat)
    requires n < |content| && content[n] == ' '
    ensures MarkerLength(content) == Some(n) <==> IsListMarker(content[..n])
  {
    var m := content[..n];
    assert forall i :: 0 <= i < n ==> m[i] == content[i];
    HashesAre(content, 1);
    DigitsAre(content, 1);
    hide CountHashes, CountDigits;
  }

  /** `content` is a marker, a space, white space and prose. */
  ghost predicate Listed(content: string, marker: string, gap: string, prose: string) {
    IsListMarker(marker) && AllSpace(gap) && Flush(prose) && content == marker + " " + gap + prose
  }

  /** A line opens with a Markdown marker exactly where one stands in front of a space; what is behind the white
    * space is prose. */
  lemma MarkerLeadIff(content: string, lead: string, prose: string)
    ensures MarkerLead(content) == Some((lead, prose)) <==>
      exists marker: string, gap: string :: Listed(content, marker, gap, prose) && lead == marker + " "
  {
    hide IsListMarker, MarkerLength, TrimStart, IsWhitespace;
    if MarkerLead(content) == Some((lead, prose)) {
      var n := MarkerLength(content).value;
      MarkerLengthIs(content, n);
      var gap, rest := Cut(content, n + 1);
      assert content[..n + 1] == content[..n] + " ";
      assert Listed(content, content[..n], gap, prose);
    }
    if marker: string, gap: string :| Listed(content, marker, gap, prose) && lead == marker + " " {
      var n := |marker|;
      assert content[n] == ' ' && content[..n] == marker;
      MarkerLengthIs(content, n);
      CutBehind(marker + " ", gap, prose);
      assert |marker + " "| == n + 1;
    }
  }

  // ----- a list that is indented

  /** `t` is a bullet or a number, a space or a tab, and something behind it. */
  ghost predicate Item(t: string, marker: string, blank: char, behind: string) {
    && t == marker + [blank] + behind && (blank == ' ' || blank == '\t') && !AllSpace(behind)
    && (|| (|marker| == 1 && marker[0] in "\U{2022}*+-")
        || (|marker| >= 2 && marker[|marker| - 1] in ".)" && forall i :: 0 <= i < |marker| - 1 ==> IsDigit(marker[i])))
  }

  lemma OpensAListIff(line: string)
    ensures OpensAList(line) <==> exists marker: string, blank: char, behind: string :: Item(Trim(line), marker, blank, behind)
  {
    hide Trim, Item, OpensAList;
    if OpensAList(line) { ListIsItem(line); }
    if marker: string, blank: char, behind: string :| Item(Trim(line), marker, blank, behind) {
      ItemIsList(line, marker, blank, behind);
    }
  }

  lemma ListIsItem(line: string)
    requires OpensAList(line)
    ensures exists marker: string, blank: char, behind: string :: Item(Trim(line), marker, blank, behind)
  {
    hide Trim, IsWhitespace, CountDigits, OpensAList, Blank;
    var t := Trim(line);
    var n := ItemMarker(line);
    SpaceThen(t, n);
    assert t == t[..n] + [t[n]] + t[n + 1..];
    assert forall i :: 0 <= i < n ==> t[..n][i] == t[i];
    assert Item(t, t[..n], t[n], t[n + 1..]);
  }

  lemma ItemIsList(line: string, marker: string, blank: char, behind: string)
    requires Item(Trim(line), marker, blank, behind)
    ensures OpensAList(line)
  {
    hide Trim, IsWhitespace, CountDigits, Blank;
    var t := Trim(line);
    var n := |marker|;
    assert t[n] == blank && t[n + 1..] == behind;
    assert forall i :: 0 <= i < n ==> t[i] == marker[i];
    SpaceThen(t, n);
    if n >= 2 { CountIs(t, n); }
  }

  lemma ItemMarker(line: string) returns (n: nat)
    requires OpensAList(line)
    ensures var t := Trim(line);
      && 0 < n < |t| && (t[n] == ' ' || t[n] == '\t') && !Blank(t[n..])
      && ((n == 1 && t[0] in "\U{2022}*+-") || (n >= 2 && t[n - 1] in ".)" && forall i :: 0 <= i < n - 1 ==> IsDigit(t[i])))
  {
    hide Trim, CountDigits;
    var t := Trim(line);
    DigitsAre(t, 0);
    n := if t[0] in "\U{2022}*+-" then 1 else CountDigits(t, 0) + 1;
  }

  lemma CountIs(t: string, n: nat)
    requires n < |t| && !IsDigit(t[n]) && n >= 2 && !IsDigit(t[n - 1]) && forall i :: 0 <= i < n - 1 ==> IsDigit(t[i])
    ensures CountDigits(t, 0) == n - 1
  {
    DigitsAre(t, 0);
    hide CountDigits;
  }

  lemma SpaceThen(t: string, n: nat)
    requires n < |t| && (t[n] == ' ' || t[n] == '\t')
    ensures Blank(t[n..]) <==> AllSpace(t[n + 1..])
  {
    BlankIsAllSpace(t[n..]);
    assert IsWhitespace(t[n]);
    hide IsWhitespace, Blank;
    assert forall i :: n < i < |t| ==> t[n..][i - n] == t[n + 1..][i - n - 1] == t[i];
  }

  // ----- a comment in an example

  /** Something to say in words: two letters in a row, and no expected output. */
  predicate HasProse(text: string) {
    !("=>" <= text) && exists i :: 0 < i < |text| && IsAsciiLetter(text[i - 1]) && IsAsciiLetter(text[i])
  }

  /** `written` is white space, a line marker, a space, and `text` with white space around it. */
  ghost predicate Comment(written: string, indent: string, marker: string, gap: string, text: string, tail: string) {
    && marker in {"//", "///", "//!"} && AllSpace(indent) && AllSpace(gap) && AllSpace(tail) && Trimmed(text)
    && written == indent + marker + " " + (gap + text + tail)
  }

  /** A line of an example is a comment to gloss exactly where it is nothing but one with prose in it; the
    * indentation, the marker and one space are its lead. */
  lemma ExampleCommentIff(written: string, lead: string, text: string)
    ensures ExampleComment(written) == Some((lead, text)) <==>
      && HasProse(text)
      && exists indent: string, marker: string, gap: string, tail: string ::
           Comment(written, indent, marker, gap, text, tail) && lead == indent + marker + " "
  {
    hide IsWhitespace, Trim, TrimStart, LineMarker, IsAsciiLetter;
    if ExampleComment(written) == Some((lead, text)) { CommentFound(written, lead, text); }
    if HasProse(text) {
      if indent: string, marker: string, gap: string, tail: string :|
        Comment(written, indent, marker, gap, text, tail) && lead == indent + marker + " "
      {
        CommentRead(written, indent, marker, gap, text, tail);
      }
    }
  }

  lemma ProseIs(text: string)
    ensures HasProse(text) <==> !StartsWith(text, "=>") && TwoLetters(text)
  {
    hide IsAsciiLetter;
    if i :| 0 < i < |text| && IsAsciiLetter(text[i - 1]) && IsAsciiLetter(text[i]) {
      assert IsAsciiLetter(text[(i - 1)]) && IsAsciiLetter(text[(i - 1) + 1]);
    }
    if j :| 0 <= j < |text| - 1 && IsAsciiLetter(text[j]) && IsAsciiLetter(text[j + 1]) {
      assert IsAsciiLetter(text[(j + 1) - 1]);
    }
  }

  lemma CommentFound(written: string, lead: string, text: string)
    requires ExampleComment(written) == Some((lead, text))
    ensures HasProse(text)
    ensures exists indent: string, marker: string, gap: string, tail: string ::
      Comment(written, indent, marker, gap, text, tail) && lead == indent + marker + " "
  {
    hide Trim, IsWhitespace, HasProse, ExampleComment, Comment, AllSpace;
    CommentSays(written, lead, text);
    var n, k := CommentCut(written, lead, text);
    Assembled(written, n, k);
    var gap, tail := CommentIs(written, written[..n], written[n..n + k], written[n + k + 1..]);
  }

  lemma CommentIs(written: string, indent: string, marker: string, behind: string) returns (gap: string, tail: string)
    requires AllSpace(indent) && marker in {"//", "///", "//!"} && written == indent + marker + " " + behind
    ensures Comment(written, indent, marker, gap, Trim(behind), tail)
  {
    TrimTrimmed(behind);
    gap, tail := TrimSplits(behind);
    hide Trim, IsWhitespace, AllSpace, Trimmed;
  }

  lemma CommentSays(written: string, lead: string, text: string)
    requires ExampleComment(written) == Some((lead, text))
    ensures HasProse(text)
  {
    ProseIs(text);
    hide HasProse, TwoLetters, Trim, TrimStart, LineMarker;
  }

  lemma Assembled(written: string, n: nat, k: nat)
    requires n + k < |written| && written[n + k] == ' '
    ensures written == written[..n] + written[n..n + k] + " " + written[n + k + 1..]
    ensures written[..n + k + 1] == written[..n] + written[n..n + k] + " "
  {
  }

  lemma CommentCut(written: string, lead: string, text: string) returns (n: nat, k: nat)
    requires ExampleComment(written) == Some((lead, text))
    ensures n + k < |written| && written[n + k] == ' ' && lead == written[..n + k + 1] && text == Trim(written[n + k + 1..])
    ensures AllSpace(written[..n]) && written[n..n + k] in {"//", "///", "//!"}
  {
    TrimStartIs(written);
    hide IsWhitespace, TrimStart, TwoLetters, Trim;
    n := |written| - |TrimStart(written)|;
    k := LineMarker(written[n..]).value;
    MarkerIn(written[n..]);
    assert written[n..][..k] == written[n..n + k];
  }

  lemma MarkerIn(s: string)
    requires LineMarker(s).Some?
    ensures s[..LineMarker(s).value] in {"//", "///", "//!"}
  {
    assert s[..2] == [s[0], s[1]];
    assert |s| >= 3 ==> s[..3] == [s[0], s[1], s[2]];
  }

  lemma CommentRead(written: string, indent: string, marker: string, gap: string, text: string, tail: string)
    requires Comment(written, indent, marker, gap, text, tail) && HasProse(text)
    ensures ExampleComment(written) == Some((indent + marker + " ", text))
  {
    ProseIs(text);
    var behind := " " + (gap + text + tail);
    assert written == indent + (marker + behind) && (marker + behind)[0] == marker[0] == '/';
    SlashIsNoSpace();
    SpaceAround(gap, text, tail);
    hide IsWhitespace, HasProse, TwoLetters, Trim;
    SpaceInFront(indent, marker + behind);
    MarkerRead(marker, behind);
    hide TrimStart, LineMarker;
    var lead := indent + marker + " ";
    assert written[|indent|..] == marker + behind && written[|lead|..] == gap + text + tail && written[..|lead|] == lead;
    assert written[|lead| - 1] == ' ';
  }

  lemma SlashIsNoSpace()
    ensures !IsWhitespace('/')
  {
  }

  lemma MarkerRead(marker: string, behind: string)
    requires marker in {"//", "///", "//!"} && behind != "" && behind[0] == ' '
    ensures LineMarker(marker + behind) == Some(|marker|)
  {
    var all := marker + behind;
    assert forall i :: 0 <= i < |marker| ==> all[i] == marker[i];
    assert all[|marker|] == ' ';
  }
}
