/** The rules that say which span of a comment is protected, in the order they are tried. */
module Protect {
  import opened Preserve
  import opened Text
  import opened Wrappers

  datatype SpanKind = PlaceholderSpan | Code | Url | Tag | Marker | Identifier

  predicate IsWordCharacter(c: char) { IsAsciiLetter(c) || IsDigit(c) || c == '_' }

  predicate IsWordStart(c: char) { IsAsciiLetter(c) || c == '_' }

  predicate StartsWith(text: string, prefix: string) { prefix <= text }

  /** `` `code` ``, back quotes included, on one line. */
  function InlineCode(rest: string): (r: Option<nat>)
    ensures r.Some? ==> 2 <= r.value <= |rest| && rest[0] == '`' && rest[r.value - 1] == '`'
  {
    if rest == "" || rest[0] != '`' then None
    else
      var end := Find('`', rest[1..]);
      if end.None? || '\n' in rest[1..][..end.value] then None else Some(end.value + 2)
  }

  /** The length of the scheme `rest` opens with. */
  function Scheme(rest: string): (r: Option<nat>)
    ensures r.Some? ==> 7 <= r.value <= |rest| && rest[0] == 'h'
  {
    if StartsWith(rest, "https://") then Some(8) else if StartsWith(rest, "http://") then Some(7) else None
  }

  predicate EndsUrl(c: char) {
    IsWhitespace(c) || c == '`' || c == '<' || c == '>' || c == '"' || c == '|'
  }

  /** A URL does not end in one of these. */
  predicate IsUrlTrailer(c: char) {
    c == '.' || c == ',' || c == ';' || c == ':' || c == '!' || c == '?' || c == ')' || c == ']'
  }

  /** The first position at or after `from` where a URL stops. */
  function UrlStop(rest: string, from: nat): (end: nat)
    requires from <= |rest|
    ensures from <= end <= |rest|
    ensures forall i :: from <= i < end ==> !EndsUrl(rest[i])
    ensures end < |rest| ==> EndsUrl(rest[end])
    decreases |rest| - from
  {
    if from == |rest| || EndsUrl(rest[from]) then from else UrlStop(rest, from + 1)
  }

  /** `end` moved back over punctuation that belongs to the sentence. */
  function UrlTrimmed(rest: string, end: nat): (r: nat)
    requires end <= |rest|
    ensures r <= end
    ensures r > 0 ==> !IsUrlTrailer(rest[r - 1])
    ensures forall i :: r <= i < end ==> IsUrlTrailer(rest[i])
  {
    if end == 0 || !IsUrlTrailer(rest[end - 1]) then end else UrlTrimmed(rest, end - 1)
  }

  function UrlSpan(rest: string): (r: Option<nat>)
    ensures r.Some? ==> 8 <= r.value <= |rest| && rest[0] == 'h' && !EndsUrl(rest[r.value - 1])
  {
    var scheme := Scheme(rest);
    if scheme.None? then None
    else
      var end := UrlTrimmed(rest, UrlStop(rest, 0));
      if end > scheme.value then Some(end) else None
  }

  method FindUrl(rest: string) returns (r: Option<nat>)
    ensures r == UrlSpan(rest)
  {
    var scheme := Scheme(rest);
    if scheme.None? {
      return None;
    }
    var end := UrlStop(rest, 0);
    while end > 0 && IsUrlTrailer(rest[end - 1])
      invariant 0 <= end <= |rest|
      invariant UrlTrimmed(rest, end) == UrlTrimmed(rest, UrlStop(rest, 0))
    {
      end := end - 1;
    }
    return if end > scheme.value then Some(end) else None;
  }

  /** `n` characters of `rest` are a URL: a scheme and something behind it, up to where one stops, without
    * the punctuation in front of that. */
  ghost predicate IsUrl(rest: string, n: nat) {
    && n <= |rest| && (("https://" <= rest && 8 < n) || ("http://" <= rest && 7 < n))
    && (forall i :: 0 <= i < n ==> !EndsUrl(rest[i]))
    && !IsUrlTrailer(rest[n - 1])
    && exists stop: nat :: TrailersTo(rest, n, stop)
  }

  /** From `n` on, punctuation stands up to where a URL stops. */
  ghost predicate TrailersTo(rest: string, n: nat, stop: nat) {
    && n <= stop <= |rest| && (stop < |rest| ==> EndsUrl(rest[stop]))
    && forall i :: n <= i < stop ==> IsUrlTrailer(rest[i])
  }

  lemma UrlSpanIff(rest: string, n: nat)
    ensures UrlSpan(rest) == Some(n) <==> IsUrl(rest, n)
  {
    SchemeIs(rest, n);
    hide Scheme, EndsUrl, IsUrlTrailer;
    if Scheme(rest).Some? {
      var stop := UrlStop(rest, 0);
      var end := UrlTrimmed(rest, stop);
      hide UrlStop, UrlTrimmed;
      if IsUrl(rest, n) {
        TrailersStay();
        var to: nat :| TrailersTo(rest, n, to);
        OneStop(rest, stop, to);
        OneEnd(rest, stop, end, n);
      }
      if UrlSpan(rest) == Some(n) { assert TrailersTo(rest, n, stop); }
    }
  }

  lemma SchemeIs(rest: string, n: nat)
    ensures (("https://" <= rest && 8 < n) || ("http://" <= rest && 7 < n)) <==> Scheme(rest).Some? && Scheme(rest).value < n
  {
    if "https://" <= rest { assert rest[4] == 's'; }
    if "http://" <= rest { assert rest[4] == ':'; }
  }

  lemma OneStop(rest: string, a: nat, b: nat)
    requires a <= |rest| && (a < |rest| ==> EndsUrl(rest[a])) && forall i :: 0 <= i < a ==> !EndsUrl(rest[i])
    requires b <= |rest| && (b < |rest| ==> EndsUrl(rest[b])) && forall i :: 0 <= i < b ==> !EndsUrl(rest[i])
    ensures a == b
  {
    hide EndsUrl;
  }

  lemma OneEnd(rest: string, stop: nat, a: nat, b: nat)
    requires a <= stop <= |rest| && (a > 0 ==> !IsUrlTrailer(rest[a - 1])) && forall i :: a <= i < stop ==> IsUrlTrailer(rest[i])
    requires 0 < b <= stop && !IsUrlTrailer(rest[b - 1]) && forall i :: b <= i < stop ==> IsUrlTrailer(rest[i])
    ensures a == b
  {
    hide IsUrlTrailer;
  }

  lemma TrailersStay()
    ensures forall c :: IsUrlTrailer(c) ==> !EndsUrl(c)
  {
  }

  // ----- braces

  /** How far `text` is inside braces. */
  function Depth(text: string): int {
    if text == "" then 0
    else
      var k := |text| - 1;
      Depth(text[..k]) + (if text[k] == '{' then 1 else if text[k] == '}' then -1 else 0)
  }

  /** Where the braces open since `from` levels are all closed, on this line. */
  function ClosedAt(rest: string, from: nat, depth: nat): (r: Option<nat>)
    requires from <= |rest| && 1 <= depth
    ensures r.Some? ==> from < r.value <= |rest| && rest[r.value - 1] == '}'
    decreases |rest| - from
  {
    if from == |rest| || rest[from] == '\n' then None
    else if rest[from] == '{' then ClosedAt(rest, from + 1, depth + 1)
    else if rest[from] == '}' then
      if depth == 1 then Some(from + 1) else ClosedAt(rest, from + 1, depth - 1)
    else ClosedAt(rest, from + 1, depth)
  }

  function BracedSpan(rest: string): (r: Option<nat>)
    ensures r.Some? ==> 2 <= r.value <= |rest| && rest[0] == '{' && rest[r.value - 1] == '}'
  {
    if rest == "" || rest[0] != '{' then None else ClosedAt(rest, 1, 1)
  }

  method FindBraced(rest: string) returns (r: Option<nat>)
    ensures r == BracedSpan(rest)
  {
    if rest == "" || rest[0] != '{' {
      return None;
    }
    var depth: nat := 1;
    for offset := 1 to |rest|
      invariant 1 <= depth
      invariant ClosedAt(rest, 1, 1) == ClosedAt(rest, offset, depth)
    {
      match rest[offset] {
        case '\n' => return None;
        case '{' => depth := depth + 1;
        case '}' =>
          if depth == 1 {
            return Some(offset + 1);
          }
          depth := depth - 1;
        case _ =>
      }
    }
    return None;
  }

  /** `n` characters of `rest` are one balanced construct on one line, and no fewer are. */
  ghost predicate Balanced(rest: string, n: nat) {
    && 2 <= n <= |rest| && rest[0] == '{' && Depth(rest[..n]) == 0
    && (forall i :: 1 <= i < n ==> 1 <= Depth(rest[..i]))
    && (forall i :: 0 <= i < n ==> rest[i] != '\n')
  }

  lemma {:induction false} ClosedAtIff(rest: string, from: nat, n: nat)
    requires 1 <= from <= |rest| && rest[0] == '{' && 1 <= Depth(rest[..from])
    requires forall i :: 1 <= i <= from ==> 1 <= Depth(rest[..i])
    requires forall i :: 0 <= i < from ==> rest[i] != '\n'
    ensures ClosedAt(rest, from, Depth(rest[..from])) == Some(n) <==> Balanced(rest, n)
    decreases |rest| - from
  {
    if from < |rest| {
      assert rest[..from + 1][..from] == rest[..from];
      if rest[from] == '\n' {
      } else if Depth(rest[..from + 1]) == 0 {
      } else {
        ClosedAtIff(rest, from + 1, n);
      }
    }
  }

  /** The construct ends where its braces are all closed for the first time. */
  lemma BracedSpanIff(rest: string, n: nat)
    ensures BracedSpan(rest) == Some(n) <==> Balanced(rest, n)
  {
    if rest != "" && rest[0] == '{' {
      assert rest[..1] == "{" && "{"[..0] == "";
      assert Depth("{") == 1;
      ClosedAtIff(rest, 1, n);
    }
  }

  // ----- tags, markers, identifiers

  /** How many characters at and after `from` are ASCII letters. */
  function Letters(text: string, from: nat): (n: nat)
    requires from <= |text|
    ensures from + n <= |text| && forall i :: from <= i < from + n ==> IsAsciiLetter(text[i])
    ensures from + n < |text| ==> !IsAsciiLetter(text[from + n])
    decreases |text| - from
  {
    if from < |text| && IsAsciiLetter(text[from]) then 1 + Letters(text, from + 1) else 0
  }

  /** `@return`, `@param`, ...: the tag alone. */
  function DocTag(rest: string): (r: Option<nat>)
    ensures r.Some? ==> 2 <= r.value <= |rest| && rest[0] == '@' && IsAsciiLetter(rest[r.value - 1])
  {
    if rest == "" || rest[0] != '@' || Letters(rest, 1) == 0 then None else Some(1 + Letters(rest, 1))
  }

  /** `{@code ...}`: the whole construct. */
  function InlineDocTag(rest: string): (r: Option<nat>)
    ensures r.Some? ==> 2 <= r.value <= |rest| && rest[0] == '{' && rest[r.value - 1] == '}'
  {
    if rest == "" || rest[0] != '{' || DocTag(rest[1..]).None? then None else BracedSpan(rest)
  }

  /** The length of the attention marker `rest` opens with. */
  function AttentionMarker(rest: string): (r: Option<nat>)
    ensures r.Some? ==> 3 <= r.value <= |rest| && IsAsciiLetter(rest[0])
  {
    if StartsWith(rest, "TODO") then Some(4)
    else if StartsWith(rest, "FIXME") then Some(5)
    else if StartsWith(rest, "NOTE") then Some(4)
    else if StartsWith(rest, "HACK") then Some(4)
    else if StartsWith(rest, "XXX") then Some(3)
    else if StartsWith(rest, "SAFETY") then Some(6)
    else if StartsWith(rest, "WARNING") then Some(7)
    else if StartsWith(rest, "Panics") then Some(6)
    else None
  }

  /** `TODO:`, `FIXME(alice):`: marker, optional owner, colon. */
  function AttentionPrefix(rest: string): (r: Option<nat>)
    ensures r.Some? ==> 2 <= r.value <= |rest| && rest[r.value - 1] == ':' && IsAsciiLetter(rest[0])
  {
    var marker := AttentionMarker(rest);
    if marker.None? then None
    else
      var after := marker.value;
      var owner := if after < |rest| && rest[after] == '(' then Find(')', rest[after..]) else None;
      if after < |rest| && rest[after] == '(' && owner.None? then None
      else
        var end := if owner.Some? then after + owner.value + 1 else after;
        if end < |rest| && rest[end] == ':' then Some(end + 1) else None
  }

  /** The end of the run of word characters at `from`. */
  function WordEnd(rest: string, from: nat): (end: nat)
    requires from <= |rest|
    ensures from <= end <= |rest| && forall i :: from <= i < end ==> IsWordCharacter(rest[i])
    ensures end < |rest| ==> !IsWordCharacter(rest[end])
    decreases |rest| - from
  {
    if from < |rest| && IsWordCharacter(rest[from]) then WordEnd(rest, from + 1) else from
  }

  /** How many characters of path punctuation join a further word at `at`. */
  function Joint(rest: string, at: nat): (n: nat)
    ensures n <= 2 && (n > 0 ==> at + n < |rest| && IsWordStart(rest[at + n]))
  {
    if at + 2 < |rest| && rest[at] == ':' && rest[at + 1] == ':' && IsWordStart(rest[at + 2]) then 2
    else if at + 1 < |rest| && rest[at] == '.' && IsWordStart(rest[at + 1]) then 1
    else 0
  }

  /** Where the token that begins at `from` stops: words joined by `::` or `.`, then maybe `()`. */
  function TokenEnd(rest: string, from: nat): (end: nat)
    requires from < |rest| && IsWordStart(rest[from])
    ensures from < end <= |rest| && (IsWordCharacter(rest[end - 1]) || rest[end - 1] == ')')
    decreases |rest| - from
  {
    var word := WordEnd(rest, from);
    var joint := Joint(rest, word);
    if joint > 0 then TokenEnd(rest, word + joint)
    else if word + 1 < |rest| && rest[word] == '(' && rest[word + 1] == ')' then word + 2
    else word
  }

  lemma TokenStep(rest: string, from: nat)
    requires from < |rest| && IsWordStart(rest[from])
    ensures var word := WordEnd(rest, from);
      var joint := Joint(rest, word);
      && from < word
      && TokenEnd(rest, from) ==
           if joint > 0 then TokenEnd(rest, word + joint)
           else if word + 1 < |rest| && rest[word] == '(' && rest[word + 1] == ')' then word + 2
           else word
  {
  }

  predicate HasCaseBoundary(word: string) {
    || (exists i :: 0 <= i < |word| - 1 && 'a' <= word[i] <= 'z' && 'A' <= word[i + 1] <= 'Z')
    || (exists i :: 0 <= i < |word| - 2
          && 'A' <= word[i] <= 'Z' && 'A' <= word[i + 1] <= 'Z' && 'a' <= word[i + 2] <= 'z')
  }

  /** A word that carries a mark prose does not use. */
  predicate LooksLikeCode(word: string) {
    || '_' in word
    || (exists i :: 0 <= i < |word| - 1 && word[i] == ':' && word[i + 1] == ':')
    || (|word| >= 2 && word[|word| - 2..] == "()")
    || HasCaseBoundary(word)
  }

  function IdentifierSpan(rest: string): (r: Option<nat>)
    ensures r.Some? ==> 1 <= r.value <= |rest| && IsWordStart(rest[0])
    ensures r.Some? ==> (IsWordCharacter(rest[r.value - 1]) || rest[r.value - 1] == ')')
  {
    if rest == "" || !IsWordStart(rest[0]) then None
    else
      var end := TokenEnd(rest, 0);
      if LooksLikeCode(rest[..end]) then Some(end) else None
  }

  method FindIdentifier(rest: string) returns (r: Option<nat>)
    ensures r == IdentifierSpan(rest)
  {
    hide LooksLikeCode, IsWordCharacter, TokenEnd, IsWordStart;
    if rest == "" || !IsWordStart(rest[0]) {
      return None;
    }
    var end := 0;
    while true
      invariant end < |rest| && IsWordStart(rest[end])
      invariant TokenEnd(rest, end) == TokenEnd(rest, 0)
      decreases |rest| - end
    {
      TokenStep(rest, end);
      var word := WordEnd(rest, end);
      var joint := Joint(rest, word);
      if joint == 0 {
        end := word;
        if end + 1 < |rest| && rest[end] == '(' && rest[end + 1] == ')' {
          end := end + 2;
        }
        break;
      }
      end := word + joint;
    }
    return if LooksLikeCode(rest[..end]) then Some(end) else None;
  }

  /** Character `i` of a path: one of a word, a `.` between two words, or one of a `::` between two. */
  predicate InPath(rest: string, i: nat)
    requires i < |rest|
  {
    || IsWordCharacter(rest[i])
    || (rest[i] == '.' && JoinsWords(rest, i, 1))
    || (rest[i] == ':' && JoinsWords(rest, i, 2) && rest[i + 1] == ':')
    || (rest[i] == ':' && 0 < i && JoinsWords(rest, i - 1, 2) && rest[i - 1] == ':')
  }

  /** A word ends in front of `i`, and one begins behind the `n` characters there. */
  predicate JoinsWords(rest: string, i: nat, n: nat) {
    0 < i && i + n < |rest| && IsWordCharacter(rest[i - 1]) && IsWordStart(rest[i + n])
  }

  /** `n` characters of `rest` are a path that goes no further, and the parentheses of a call behind it. */
  ghost predicate IsToken(rest: string, n: nat) { exists path: nat :: PathTo(rest, path) && n == CallEnd(rest, path) }

  function CallEnd(rest: string, path: nat): nat {
    if path + 1 < |rest| && rest[path] == '(' && rest[path + 1] == ')' then path + 2 else path
  }

  ghost predicate PathTo(rest: string, path: nat) {
    && path <= |rest| && (path < |rest| ==> !InPath(rest, path))
    && forall i :: 0 <= i < path ==> InPath(rest, i)
  }

  lemma {:induction false} TokenEndIs(rest: string, from: nat) returns (path: nat)
    requires from < |rest| && IsWordStart(rest[from]) && forall i :: 0 <= i < from ==> InPath(rest, i)
    ensures PathTo(rest, path) && TokenEnd(rest, from) == CallEnd(rest, path)
    decreases |rest| - from
  {
    var word := WordEnd(rest, from);
    var joint := Joint(rest, word);
    assert IsWordCharacter(rest[word - 1]);
    if joint > 0 {
      path := TokenEndIs(rest, word + joint);
    } else {
      path := word;
    }
  }

  /** A span of this rule is a token, as far as one goes, that carries a mark prose does not use. */
  lemma IdentifierSpanIff(rest: string, n: nat)
    ensures IdentifierSpan(rest) == Some(n) <==>
      rest != "" && IsWordStart(rest[0]) && IsToken(rest, n) && LooksLikeCode(rest[..n])
  {
    hide PathTo, LooksLikeCode, TokenEnd, CallEnd, IsWordStart;
    if rest != "" && IsWordStart(rest[0]) {
      var path := TokenEndIs(rest, 0);
      assert IsToken(rest, CallEnd(rest, path));
      if IsToken(rest, n) {
        var other: nat :| PathTo(rest, other) && n == CallEnd(rest, other);
        OnePath(rest, path, other);
      }
    }
  }

  lemma OnePath(rest: string, a: nat, b: nat)
    requires PathTo(rest, a) && PathTo(rest, b)
    ensures a == b
  {
    hide InPath;
  }

  /** How much of `rest` is protected from its front on, and by which rule; `previous` stands before it. */
  function ProtectedSpan(rest: string, previous: Option<char>): (r: Option<(nat, SpanKind)>)
    ensures r.Some? ==> 1 <= r.value.0 <= |rest|
    ensures r.None? ==> PlaceholderAt(rest).None?
  {
    if PlaceholderAt(rest).Some? then Some((PlaceholderAt(rest).value.1, PlaceholderSpan))
    else if InlineCode(rest).Some? then Some((InlineCode(rest).value, Code))
    else if UrlSpan(rest).Some? then Some((UrlSpan(rest).value, Url))
    else if InlineDocTag(rest).Some? then Some((InlineDocTag(rest).value, Tag))
    else if previous.Some? && IsWordCharacter(previous.value) then None
    else if AttentionPrefix(rest).Some? then Some((AttentionPrefix(rest).value, Marker))
    else if DocTag(rest).Some? then Some((DocTag(rest).value, Tag))
    else if IdentifierSpan(rest).Some? then Some((IdentifierSpan(rest).value, Identifier))
    else None
  }

  /** A protected span neither begins nor ends in white space, so trimming never reaches it. */
  lemma SpanIsTrimmed(rest: string, previous: Option<char>)
    requires ProtectedSpan(rest, previous).Some?
    ensures var n := ProtectedSpan(rest, previous).value.0;
      rest[..n] != "" && Trimmed(rest[..n])
  {
    hide InlineCode, UrlSpan, InlineDocTag, AttentionPrefix, DocTag, IdentifierSpan, PlaceholderAt;
    var n := ProtectedSpan(rest, previous).value.0;
    assert rest[..n][0] == rest[0] && rest[..n][n - 1] == rest[n - 1];
  }

  // ----- spans and placeholders

  /** The placeholder at the front of `text`, as it is spelled. */
  function NameAt(text: string): (r: string)
    requires PlaceholderAt(text).Some?
    ensures 3 <= |r|
  {
    text[..PlaceholderAt(text).value.1]
  }

  /** No marker reads on like a placeholder. */
  lemma MarkerIsNoName(rest: string)
    requires AttentionPrefix(rest).Some?
    ensures rest[0] == 'X' ==> rest[1] == 'X'
  {
  }

  /** A word that is an `X` and digits carries no mark of code. */
  lemma NumberedIsNoCode(word: string)
    requires word != "" && word[0] == 'X' && forall i :: 1 <= i < |word| ==> IsDigit(word[i])
    ensures !LooksLikeCode(word)
  {
    if |word| >= 2 { assert word[|word| - 2..][1] == word[|word| - 1] != ')'; }
  }

  /** A protected span is not the beginning of a placeholder, nor does one begin it, unless it is one. */
  lemma SpanOrName(rest: string, previous: Option<char>, name: string)
    requires ProtectedSpan(rest, previous).Some? && PlaceholderAt(name).Some?
    ensures SameOrApart(NameAt(name), rest[..ProtectedSpan(rest, previous).value.0])
  {
    hide InlineCode, UrlSpan, InlineDocTag, AttentionPrefix, DocTag, IdentifierSpan, PlaceholderAt, LooksLikeCode;
    var (n, kind) := ProtectedSpan(rest, previous).value;
    var k := PlaceholderDigits(name);
    var p, t := NameAt(name), rest[..n];
    assert p[0] == 'X' && IsDigit(p[1]);
    match kind
    case PlaceholderSpan => NameOrName(rest, name);
    case Identifier => IdentifierOrName(rest, name);
    case Marker =>
      MarkerIsNoName(rest);
      assert t[0] == rest[0] && t[1] == rest[1];
    case _ => assert t[0] == rest[0] != 'X';
  }

  lemma NameOrName(rest: string, name: string)
    requires PlaceholderAt(rest).Some? && PlaceholderAt(name).Some?
    ensures SameOrApart(NameAt(name), NameAt(rest))
  {
    hide PlaceholderAt;
    var k := PlaceholderDigits(name);
    var m := PlaceholderDigits(rest);
    var p, t := NameAt(name), NameAt(rest);
    assert p[k + 1] == 'Q' && t[m + 1] == 'Q';
    assert forall i :: 1 <= i <= k ==> p[i] == name[i];
    assert forall i :: 1 <= i <= m ==> t[i] == rest[i];
  }

  lemma IdentifierOrName(rest: string, name: string)
    requires PlaceholderAt(rest).None? && IdentifierSpan(rest).Some? && PlaceholderAt(name).Some?
    ensures SameOrApart(NameAt(name), rest[..IdentifierSpan(rest).value])
  {
    var n := IdentifierSpan(rest).value;
    assert LooksLikeCode(rest[..n]);
    hide PlaceholderAt, LooksLikeCode, TokenEnd;
    var k := PlaceholderDigits(name);
    var p, t := NameAt(name), rest[..n];
    if p <= t {
      assert forall i :: 0 <= i < k + 2 ==> rest[i] == t[i] == p[i] == name[i];
      PlaceholderSame(name, rest, k);
    }
    if t <= p {
      assert forall i :: 0 <= i < n ==> t[i] == p[i] == name[i];
      if n < |p| { NumberedIsNoCode(t); }
    }
  }
}
