/** One line of a comment: its syntax taken off, and what it opens with. */
module Markers {
  import opened Preserve
  import opened Protect
  import opened Text
  import opened Wrappers

  // ----- lines

  function StripCr(line: string): string {
    if line != "" && line[|line| - 1] == '\r' then line[..|line| - 1] else line
  }

  /** `str::lines`: cut at line feeds, a carriage return before one dropped with it. */
  function Lines(raw: string): seq<string> {
    if raw == "" then []
    else
      var end := Find('\n', raw);
      if end.None? then [raw] else [StripCr(raw[..end.value])] + Lines(raw[end.value + 1..])
  }

  /** `s` with its white space removed. */
  function NonWs(s: string): string {
    if s == "" then ""
    else (if IsWhitespace(s[0]) then "" else [s[0]]) + NonWs(s[1..])
  }

  lemma NonWsStep(s: string)
    requires s != ""
    ensures NonWs(s) == (if IsWhitespace(s[0]) then "" else [s[0]]) + NonWs(s[1..])
  {
  }

  lemma {:induction false} NonWsAppend(a: string, b: string)
    ensures NonWs(a + b) == NonWs(a) + NonWs(b)
  {
    hide NonWs, IsWhitespace;
    if a == "" {
      NothingLeft();
      assert a + b == b && "" + NonWs(b) == NonWs(b);
    } else {
      var tail := a[1..];
      NonWsAppend(tail, b);
      assert (a + b)[1..] == tail + b && (a + b)[0] == a[0];
      NonWsStep(a + b);
      NonWsStep(a);
    }
  }

  lemma NothingLeft()
    ensures NonWs("") == ""
  {
  }

  lemma {:induction false} NonWsSpace(s: string)
    requires AllSpace(s)
    ensures NonWs(s) == ""
  {
    if s != "" {
      assert AllSpace(s[1..]);
      NonWsSpace(s[1..]);
    }
  }

  lemma NonWsTrim(s: string)
    ensures NonWs(TrimStart(s)) == NonWs(s)
    ensures NonWs(TrimEnd(s)) == NonWs(s)
    ensures NonWs(Trim(s)) == NonWs(s)
  {
    hide IsWhitespace, NonWs;
    NonWsTrimStart(s);
    NonWsTrimEnd(s);
    NonWsTrimEnd(TrimStart(s));
  }

  lemma NonWsTrimStart(s: string)
    ensures NonWs(TrimStart(s)) == NonWs(s)
  {
    hide IsWhitespace, NonWs, TrimStart;
    TrimStartIs(s);
    var before := s[..|s| - |TrimStart(s)|];
    assert s == before + TrimStart(s);
    NonWsAppend(before, TrimStart(s));
    NonWsSpace(before);
  }

  lemma NonWsTrimEnd(s: string)
    ensures NonWs(TrimEnd(s)) == NonWs(s)
  {
    hide IsWhitespace, NonWs, TrimEnd;
    TrimEndIs(s);
    var after := s[|TrimEnd(s)|..];
    assert s == TrimEnd(s) + after;
    NonWsAppend(TrimEnd(s), after);
    NonWsSpace(after);
  }

  // ----- taking the comment's syntax off

  function StripOpener(s: string): string {
    if StartsWith(s, "/**") then s[3..]
    else if StartsWith(s, "/*!") then s[3..]
    else if StartsWith(s, "/*") then s[2..]
    else s
  }

  function StripCloser(s: string): string {
    if |s| >= 2 && s[|s| - 2] == '*' && s[|s| - 1] == '/' then s[..|s| - 2] else s
  }

  /** The leading `*` of a continuation line, and the white space in front of it. */
  function StripStar(s: string): string {
    var t := TrimStart(s);
    if t != "" && t[0] == '*' then t[1..] else s
  }

  /** The length of the line marker `s` opens with. */
  function LineMarker(s: string): (r: Option<nat>)
    ensures r.Some? ==> 2 <= r.value <= |s| && s[0] == '/' && s[1] == '/'
  {
    if StartsWith(s, "///") then Some(3)
    else if StartsWith(s, "//!") then Some(3)
    else if StartsWith(s, "//") then Some(2)
    else None
  }

  function StripLineMarker(s: string): string {
    if LineMarker(s).Some? then s[LineMarker(s).value..] else s
  }

  /** Exactly one space belongs to the marker; the rest is what the writer typed. */
  function StripOneSpace(s: string): string {
    if s != "" && s[0] == ' ' then s[1..] else s
  }

  /** What is left of a line when opener, closer, star or marker are off: indented as it was, bare behind. */
  function AfterMarkers(line: string, block: bool, first: bool): string {
    var content := Trim(line);
    var bare :=
      if block then
        var inside := if first then StripOpener(content) else content;
        var closed := StripCloser(inside);
        if first then closed else StripStar(closed)
      else StripLineMarker(content);
    TrimEnd(StripOneSpace(bare))
  }

  function StripMarkers(line: string, block: bool, first: bool): string {
    TrimStart(AfterMarkers(line, block, first))
  }

  /** The same with the indentation of an undecorated continuation line kept too. */
  function AfterMarkersAsWritten(line: string, block: bool, first: bool): string {
    if !block then AfterMarkers(line, block, first)
    else
      var content := if first then TrimStart(TrimEnd(line)) else TrimEnd(line);
      var inside := if first then StripOpener(content) else content;
      var closed := StripCloser(inside);
      TrimEnd(StripOneSpace(if first then closed else StripStar(closed)))
  }

  lemma NonWsOneSpace(s: string)
    ensures NonWs(StripOneSpace(s)) == NonWs(s)
  {
  }

  lemma NonWsFinish(s: string)
    ensures NonWs(TrimEnd(StripOneSpace(s))) == NonWs(s)
  {
    hide TrimEnd, StripOneSpace, NonWs;
    NonWsOneSpace(s);
    NonWsTrimEnd(StripOneSpace(s));
  }

  /** `a` is `b` with white space in front of it. */
  ghost predicate Padded(a: string, b: string) {
    |b| <= |a| && b == a[|a| - |b|..] && SpaceBetween(a, 0, |a| - |b|)
  }

  /** Where the trailing white space of `line` begins is settled by the line. */
  lemma OneEnd(line: string, p: nat, q: nat)
    requires p <= |line| && q <= |line|
    requires SpaceBetween(line, p, |line|) && SpaceBetween(line, q, |line|)
    requires p == 0 || !IsWhitespace(line[p - 1])
    requires q == 0 || !IsWhitespace(line[q - 1])
    ensures p == q
  {
    hide IsWhitespace;
  }

  /** Trimming the front as well takes a stretch of white space off the front, or everything. */
  lemma TrimFront(line: string) returns (w: nat)
    ensures w <= |line| && SpaceBetween(line, 0, w) && TrimStart(line) == line[w..]
    ensures |Trim(line)| <= |line| - w && SpaceBetween(line, w + |Trim(line)|, |line|)
    ensures Trim(line) == line[w..w + |Trim(line)|]
    ensures Trim(line) != "" ==> !IsWhitespace(line[w + |Trim(line)| - 1])
  {
    hide IsWhitespace, TrimStart, TrimEnd;
    TrimStartIs(line);
    TrimEndIs(TrimStart(line));
    var s := TrimStart(line);
    w := |line| - |s|;
    assert forall i :: 0 <= i < |s| ==> s[i] == line[w + i];
    assert forall i :: w <= i < |line| ==> line[i] == s[i - w];
  }

  lemma PaddedTrim(line: string)
    ensures Padded(TrimEnd(line), Trim(line))
  {
    hide IsWhitespace, TrimStart, TrimEnd, Trim;
    var w := TrimFront(line);
    TrimEndIs(line);
    var p, q := |TrimEnd(line)|, w + |Trim(line)|;
    assert p > 0 ==> line[p - 1] == TrimEnd(line)[p - 1];
    if Trim(line) == "" {
      OneEnd(line, p, 0);
    } else {
      OneEnd(line, p, q);
    }
  }

  lemma PaddedNonWs(a: string, b: string)
    requires Padded(a, b)
    ensures NonWs(a) == NonWs(b)
    ensures TrimStart(a) == TrimStart(b)
  {
    hide IsWhitespace, NonWs, TrimStart;
    var w := a[..|a| - |b|];
    assert a == w + b;
    NonWsAppend(w, b);
    NonWsSpace(w);
    TrimStartIs(a);
    TrimStartIs(b);
    var s, t := TrimStart(a), TrimStart(b);
    assert forall i :: 0 <= i < |b| ==> b[i] == a[|w| + i];
    assert t != "" ==> t[0] == b[|b| - |t|];
    assert s != "" ==> s[0] == a[|a| - |s|];
  }

  lemma PaddedCloser(a: string, b: string)
    requires Padded(a, b)
    ensures Padded(StripCloser(a), StripCloser(b))
  {
    var w := |a| - |b|;
    assert forall i :: 0 <= i < |b| ==> b[i] == a[w + i];
  }

  /** The two ways of taking the syntax off differ in white space only. */
  lemma AsWrittenSameText(line: string, block: bool, first: bool)
    ensures NonWs(AfterMarkersAsWritten(line, block, first)) == NonWs(AfterMarkers(line, block, first))
  {
    hide IsWhitespace, NonWs, TrimStart, TrimEnd, Trim, StripCloser, Padded;
    if block && !first {
      PaddedTrim(line);
      var a, b := StripCloser(TrimEnd(line)), StripCloser(Trim(line));
      PaddedCloser(TrimEnd(line), Trim(line));
      PaddedNonWs(a, b);
      NonWsFinish(StripStar(a));
      NonWsFinish(StripStar(b));
    } else if block {
      TrimsCommute(line);
    }
  }

  lemma TrimsCommute(line: string)
    ensures TrimStart(TrimEnd(line)) == Trim(line)
  {
    hide IsWhitespace, TrimStart, TrimEnd;
    PaddedTrim(line);
    PaddedNonWs(TrimEnd(line), Trim(line));
    TrimTrimmed(line);
    NothingToTrim(Trim(line));
  }

  lemma NothingToTrim(t: string)
    requires t == "" || !IsWhitespace(t[0])
    ensures TrimStart(t) == t
  {
  }

  // ----- what a line opens with

  /** How much of the text behind a tag belongs to its lead. */
  datatype TagArguments = ProseArgument | NameArgument | TypeOrName | OpaqueArgument | ExampleBody

  predicate TakesAName(tag: string) {
    || tag == "@param" || tag == "@arg" || tag == "@argument" || tag == "@property" || tag == "@prop"
    || tag == "@typedef" || tag == "@callback" || tag == "@template" || tag == "@typeParam"
  }

  predicate IsOpaque(tag: string) {
    || tag == "@alias" || tag == "@augments" || tag == "@author" || tag == "@borrows" || tag == "@category"
    || tag == "@copyright" || tag == "@default" || tag == "@extends" || tag == "@lends" || tag == "@license"
    || tag == "@memberOf" || tag == "@memberof" || tag == "@mixes" || tag == "@module" || tag == "@name"
    || tag == "@requires" || tag == "@since" || tag == "@version"
  }

  function TagArgumentsOf(tag: string): TagArguments {
    if TakesAName(tag) then NameArgument
    else if tag == "@throws" || tag == "@exception" then TypeOrName
    else if IsOpaque(tag) then OpaqueArgument
    else if tag == "@example" then ExampleBody
    else ProseArgument
  }

  /** A tag at the head of a line, and the trimmed rest of it. */
  function LeadingTag(content: string): Option<(string, string)> {
    var n := DocTag(content);
    if n.None? then None else Some((content[..n.value], TrimStart(content[n.value..])))
  }

  /** The JSDoc type annotation `rest` opens with; `{@` opens an inline tag instead. */
  function TypeAnnotation(rest: string): (r: Option<nat>)
    ensures r.Some? ==> r.value <= |rest|
  {
    if StartsWith(rest, "{@") then None else BracedSpan(rest)
  }

  function FirstWord(rest: string): (n: nat)
    ensures n <= |rest|
  {
    if rest == "" || IsWhitespace(rest[0]) then 0 else 1 + FirstWord(rest[1..])
  }

  /** A lead taken off `rest[..n]`, and a space behind it. */
  function TakeLead(lead: string, rest: string, n: nat): (string, string)
    requires n <= |rest|
  {
    (lead + rest[..n] + " ", TrimStart(rest[n..]))
  }

  function TakeType(lead: string, rest: string): (string, string) {
    if TypeAnnotation(rest).Some? then TakeLead(lead, rest, TypeAnnotation(rest).value) else (lead, rest)
  }

  function TakeName(lead: string, rest: string): (string, string) {
    if rest == "" then (lead, rest) else TakeLead(lead, rest, FirstWord(rest))
  }

  function TakeHyphen(lead: string, rest: string): (string, string) {
    if StartsWith(rest, "- ") then (lead + "- ", TrimStart(rest[2..])) else (lead, rest)
  }

  /** `@param {string} id `: the lead of a tag line, and its prose. */
  function TagLead(content: string): Option<(string, string)> {
    var tagged := LeadingTag(content);
    if tagged.None? then None
    else
      var (tag, rest) := tagged.value;
      var arguments := TagArgumentsOf(tag);
      if arguments == OpaqueArgument || arguments == ExampleBody then Some((content, ""))
      else
        var typed := TypeAnnotation(rest).Some?;
        var (lead, prose) := TakeType(tag + " ", rest);
        var named := arguments == NameArgument || (arguments == TypeOrName && !typed);
        var (lead', prose') := if named then TakeName(lead, prose) else (lead, prose);
        Some(TakeHyphen(lead', prose'))
  }

  function CountHashes(content: string, from: nat): (n: nat)
    requires from <= |content|
    ensures from + n <= |content|
    decreases |content| - from
  {
    if from < |content| && content[from] == '#' then 1 + CountHashes(content, from + 1) else 0
  }

  function CountDigits(content: string, from: nat): (n: nat)
    requires from <= |content|
    ensures from + n <= |content|
    decreases |content| - from
  {
    if from < |content| && IsDigit(content[from]) then 1 + CountDigits(content, from + 1) else 0
  }

  /** The length of the Markdown marker a line opens with: a bullet, a heading or a number. */
  function MarkerLength(content: string): (r: Option<nat>)
    ensures r.Some? ==> r.value <= |content|
  {
    if content == "" then None
    else if content[0] == '-' || content[0] == '+' then Some(1)
    else if content[0] == '#' then Some(1 + CountHashes(content, 1))
    else if IsDigit(content[0]) then
      var n := 1 + CountDigits(content, 1);
      if n < |content| && (content[n] == '.' || content[n] == ')') then Some(n + 1) else None
    else None
  }

  /** `- `, `1. `, `# `: the Markdown decoration of a line, and what it decorates. */
  function MarkerLead(content: string): Option<(string, string)> {
    var n := MarkerLength(content);
    if n.Some? && n.value < |content| && content[n.value] == ' '
    then Some((content[..n.value] + " ", TrimStart(content[n.value + 1..]))) else None
  }

  function LeadOf(content: string): Option<(string, string)> {
    if TagLead(content).Some? then TagLead(content) else MarkerLead(content)
  }

  predicate IsFence(content: string) { StartsWith(content, "```") }

  /** A whole-line comment inside an example: its lead, and the prose to gloss. */
  function ExampleComment(written: string): Option<(string, string)> {
    var indentation := |written| - |TrimStart(written)|;
    var marker := LineMarker(written[indentation..]);
    if marker.None? then None
    else
      var lead := indentation + marker.value + 1;
      if lead > |written| || written[lead - 1] != ' ' then None
      else
        var text := Trim(written[lead..]);
        if StartsWith(text, "=>") || !TwoLetters(text) then None else Some((written[..lead], text))
  }

  /** Two ASCII letters in a row: something to translate. */
  predicate TwoLetters(text: string) {
    exists i :: 0 <= i < |text| - 1 && IsAsciiLetter(text[i]) && IsAsciiLetter(text[i + 1])
  }

  // ----- nothing of a line is lost to its lead

  /** A lead and its prose hold what `content` does, white space aside. */
  ghost predicate Splits(content: string, lead: string, prose: string) {
    NonWs(lead) + NonWs(prose) == NonWs(content)
  }

  lemma NonWsCut(s: string, n: nat)
    requires n <= |s|
    ensures NonWs(s[..n]) + NonWs(s[n..]) == NonWs(s)
  {
    hide NonWs;
    assert s == s[..n] + s[n..];
    NonWsAppend(s[..n], s[n..]);
  }

  lemma NonWsSpaced(s: string)
    ensures NonWs(s + " ") == NonWs(s)
  {
    NonWsAppend(s, " ");
    assert NonWs(" ") == "" by { NonWsSpace(" "); }
    hide NonWs;
  }

  lemma TakeLeadSplits(content: string, lead: string, rest: string, n: nat)
    requires n <= |rest| && Splits(content, lead, rest)
    ensures var (l, p) := TakeLead(lead, rest, n); Splits(content, l, p)
  {
    hide NonWs, TrimStart;
    NonWsSpaced(lead + rest[..n]);
    NonWsAppend(lead, rest[..n]);
    NonWsCut(rest, n);
    NonWsTrim(rest[n..]);
  }

  lemma TakeHyphenSplits(content: string, lead: string, rest: string)
    requires Splits(content, lead, rest)
    ensures var (l, p) := TakeHyphen(lead, rest); Splits(content, l, p)
  {
    hide NonWs, TrimStart;
    if StartsWith(rest, "- ") {
      NonWsCut(rest, 2);
      NonWsAppend(lead, "- ");
      NonWsTrim(rest[2..]);
      assert rest[..2] == "- ";
    }
  }

  lemma LeadingTagSplits(content: string)
    requires LeadingTag(content).Some?
    ensures var (tag, rest) := LeadingTag(content).value; Splits(content, tag + " ", rest)
  {
    hide NonWs, TrimStart, DocTag;
    var n := DocTag(content).value;
    NonWsCut(content, n);
    NonWsTrim(content[n..]);
    NonWsSpaced(content[..n]);
  }

  lemma TagLeadSplits(content: string)
    requires TagLead(content).Some?
    ensures var (lead, prose) := TagLead(content).value; Splits(content, lead, prose)
  {
    assert NonWs("") == "";
    hide NonWs, TakeLead, TakeHyphen, LeadingTag, TypeAnnotation, FirstWord, TagArgumentsOf;
    LeadingTagSplits(content);
    var (tag, rest) := LeadingTag(content).value;
    var arguments := TagArgumentsOf(tag);
    if arguments != OpaqueArgument && arguments != ExampleBody {
      if TypeAnnotation(rest).Some? { TakeLeadSplits(content, tag + " ", rest, TypeAnnotation(rest).value); }
      var (lead, prose) := TakeType(tag + " ", rest);
      var named := arguments == NameArgument || (arguments == TypeOrName && TypeAnnotation(rest).None?);
      if prose != "" { TakeLeadSplits(content, lead, prose, FirstWord(prose)); }
      var (lead', prose') := if named then TakeName(lead, prose) else (lead, prose);
      TakeHyphenSplits(content, lead', prose');
    }
  }

  lemma MarkerLeadSplits(content: string)
    requires MarkerLead(content).Some?
    ensures var (lead, prose) := MarkerLead(content).value; Splits(content, lead, prose)
  {
    hide NonWs, TrimStart, MarkerLength;
    var n := MarkerLength(content).value;
    NonWsCut(content, n + 1);
    assert content[..n + 1] == content[..n] + " ";
    NonWsTrim(content[n + 1..]);
  }

  lemma LeadSplits(content: string)
    requires LeadOf(content).Some?
    ensures var (lead, prose) := LeadOf(content).value; Splits(content, lead, prose)
  {
    hide TagLead, MarkerLead;
    if TagLead(content).Some? { TagLeadSplits(content); } else { MarkerLeadSplits(content); }
  }

  lemma ExampleCommentSplits(written: string)
    requires ExampleComment(written).Some?
    ensures var (lead, prose) := ExampleComment(written).value;
      Splits(written, lead, prose) && prose != "" && Trimmed(prose)
  {
    hide NonWs, LineMarker, IsWhitespace;
    var (lead, prose) := ExampleComment(written).value;
    hide TrimStart, Trim;
    NonWsCut(written, |lead|);
    NonWsTrim(written[|lead|..]);
    TrimTrimmed(written[|lead|..]);
  }
}
