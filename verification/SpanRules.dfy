/** What the rules protect, said of the characters, and the scan that tries them: nothing a rule claims is missed. */
module SpanRules {
  import opened Masking
  import opened Preserve
  import opened Protect
  import opened Text
  import opened Wrappers

  // ----- inline code

  /** `n` characters of `rest` are a pair of back quotes and what stands between them on one line. */
  ghost predicate IsCode(rest: string, n: nat) {
    && 2 <= n <= |rest| && rest[0] == '`' && rest[n - 1] == '`'
    && forall i :: 0 < i < n - 1 ==> rest[i] != '`' && rest[i] != '\n'
  }

  lemma InlineCodeIff(rest: string, n: nat)
    ensures InlineCode(rest) == Some(n) <==> IsCode(rest, n)
  {
    if rest != "" {
      var body := rest[1..];
      FindFirst('`', body);
      if IsCode(rest, n) {
        FindIs('`', body, n - 2);
        assert '\n' !in body[..n - 2];
      }
      if InlineCode(rest) == Some(n) {
        assert forall i :: 0 < i < n - 1 ==> rest[i] == body[..n - 2][i - 1];
      }
    }
  }

  // ----- URLs

  /** `n` characters of `rest` are a scheme and something behind it, with nothing in them that ends a URL, the
    * last of them no punctuation; behind them stands punctuation up to what ends it. */
  ghost predicate IsLink(rest: string, n: nat) {
    && n <= |rest| && (("https://" <= rest && n > 8) || ("http://" <= rest && n > 7))
    && (forall i :: 0 <= i < n ==> !Ends(rest[i]))
    && rest[n - 1] !in ".,;:!?)]"
    && exists stop: nat :: PunctuationTo(rest, n, stop)
  }

  /** White space, a back quote, an angle bracket, a quotation mark or a bar. */
  predicate Ends(c: char) { IsWhitespace(c) || c in "`<>\"|" }

  ghost predicate PunctuationTo(rest: string, n: nat, stop: nat) {
    && n <= stop <= |rest| && (stop < |rest| ==> Ends(rest[stop]))
    && forall i :: n <= i < stop ==> rest[i] in ".,;:!?)]"
  }

  lemma CharactersAre(c: char)
    ensures EndsUrl(c) <==> Ends(c)
    ensures IsUrlTrailer(c) <==> c in ".,;:!?)]"
  {
    hide IsWhitespace;
  }

  lemma AllCharactersAre()
    ensures forall c :: EndsUrl(c) <==> Ends(c)
    ensures forall c :: IsUrlTrailer(c) <==> c in ".,;:!?)]"
  {
    hide EndsUrl, Ends, IsUrlTrailer;
    forall c ensures EndsUrl(c) <==> Ends(c) { CharactersAre(c); }
    forall c ensures IsUrlTrailer(c) <==> c in ".,;:!?)]" { CharactersAre(c); }
  }

  lemma LinkIff(rest: string, n: nat)
    ensures UrlSpan(rest) == Some(n) <==> IsLink(rest, n)
  {
    UrlSpanIff(rest, n);
    AllCharactersAre();
    hide EndsUrl, Ends, IsUrlTrailer, UrlSpan;
    forall stop: nat ensures TrailersTo(rest, n, stop) <==> PunctuationTo(rest, n, stop) {
    }
  }

  // ----- tags

  /** `n` characters of `rest` are an `@` and all the letters behind it. */
  ghost predicate IsTag(rest: string, n: nat) {
    && 2 <= n <= |rest| && rest[0] == '@' && (n < |rest| ==> !IsAsciiLetter(rest[n]))
    && forall i :: 0 < i < n ==> IsAsciiLetter(rest[i])
  }

  lemma DocTagIff(rest: string, n: nat)
    ensures DocTag(rest) == Some(n) <==> IsTag(rest, n)
  {
    hide IsAsciiLetter;
  }

  /** `n` characters of `rest` are a balanced pair of braces on one line, with a tag behind the first. */
  ghost predicate IsInlineTag(rest: string, n: nat) {
    Balanced(rest, n) && exists k: nat :: IsTag(rest[1..], k)
  }

  lemma InlineDocTagIff(rest: string, n: nat)
    ensures InlineDocTag(rest) == Some(n) <==> IsInlineTag(rest, n)
  {
    hide DocTag, BracedSpan, Balanced, IsTag;
    BracedSpanIff(rest, n);
    BalancedOpens(rest, n);
    if rest != "" {
      if DocTag(rest[1..]).Some? { DocTagIff(rest[1..], DocTag(rest[1..]).value); }
      if k: nat :| IsTag(rest[1..], k) { DocTagIff(rest[1..], k); }
    }
  }

  lemma BalancedOpens(rest: string, n: nat)
    ensures Balanced(rest, n) ==> rest != "" && rest[0] == '{'
  {
  }

  // ----- attention markers

  predicate IsMarkerWord(word: string) {
    word in {"TODO", "FIXME", "NOTE", "HACK", "XXX", "SAFETY", "WARNING", "Panics"}
  }

  /** `n` characters of `rest` are a marker, an owner in parentheses or none, and a colon. */
  ghost predicate IsAttention(rest: string, n: nat) {
    exists k: nat :: k <= |rest| && IsMarkerWord(rest[..k])
      && (Colon(rest, k, n) || exists close: nat :: Owner(rest, k, close) && Colon(rest, close + 1, n))
  }

  /** A colon at `k` is the last of the `n` characters. */
  predicate Colon(rest: string, k: nat, n: nat) { k < |rest| && rest[k] == ':' && n == k + 1 }

  /** From `k` to `close` stands a pair of parentheses, the closing one the first there is. */
  ghost predicate Owner(rest: string, k: nat, close: nat) {
    k < close < |rest| && rest[k] == '(' && rest[close] == ')' && forall i :: k <= i < close ==> rest[i] != ')'
  }

  lemma PrefixIs(rest: string, word: string)
    ensures StartsWith(rest, word) <==> |word| <= |rest| && rest[..|word|] == word
  {
  }

  lemma MarkerWordIs(rest: string, k: nat)
    requires k <= |rest|
    ensures AttentionMarker(rest) == Some(k) <==> IsMarkerWord(rest[..k])
  {
    PrefixIs(rest, "TODO");
    PrefixIs(rest, "FIXME");
    PrefixIs(rest, "NOTE");
    PrefixIs(rest, "HACK");
    PrefixIs(rest, "XXX");
    PrefixIs(rest, "SAFETY");
    PrefixIs(rest, "WARNING");
    PrefixIs(rest, "Panics");
  }

  lemma AttentionIff(rest: string, n: nat)
    ensures AttentionPrefix(rest) == Some(n) <==> IsAttention(rest, n)
  {
    hide AttentionMarker, IsMarkerWord;
    if AttentionMarker(rest).Some? {
      var k := AttentionMarker(rest).value;
      MarkerWordIs(rest, k);
      OwnerIs(rest, k);
    }
    if IsAttention(rest, n) {
      var k: nat :| k <= |rest| && IsMarkerWord(rest[..k])
        && (Colon(rest, k, n) || exists close: nat :: Owner(rest, k, close) && Colon(rest, close + 1, n));
      MarkerWordIs(rest, k);
      if close: nat :| Owner(rest, k, close) && Colon(rest, close + 1, n) { OneOwner(rest, k, close); }
    }
  }

  lemma OwnerIs(rest: string, k: nat)
    requires k <= |rest|
    ensures k < |rest| && rest[k] == '(' && Find(')', rest[k..]).Some? ==> Owner(rest, k, k + Find(')', rest[k..]).value)
  {
    FindFirst(')', rest[k..]);
    assert forall i :: k <= i < |rest| ==> rest[i] == rest[k..][i - k];
  }

  lemma OneOwner(rest: string, k: nat, close: nat)
    requires Owner(rest, k, close)
    ensures Find(')', rest[k..]) == Some(close - k)
  {
    FindIs(')', rest[k..], close - k);
  }

  // ----- identifiers

  /** A mark prose does not use stands at `i`: an underscore, two colons, the parentheses of a call at the
    * end, a capital behind a small letter, or a small letter behind two capitals. */
  predicate MarkedAt(word: string, i: nat) {
    && i < |word|
    && (|| word[i] == '_'
        || (i + 1 < |word| && word[i] == word[i + 1] == ':')
        || (i + 2 == |word| && word[i] == '(' && word[i + 1] == ')')
        || HumpAt(word, i) || AcronymAt(word, i))
  }

  predicate HumpAt(word: string, i: nat) {
    i + 1 < |word| && 'a' <= word[i] <= 'z' && 'A' <= word[i + 1] <= 'Z'
  }

  predicate AcronymAt(word: string, i: nat) {
    i + 2 < |word| && 'A' <= word[i] <= 'Z' && 'A' <= word[i + 1] <= 'Z' && 'a' <= word[i + 2] <= 'z'
  }

  lemma CaseBoundaryIs(word: string)
    ensures HasCaseBoundary(word) <==> exists i: nat :: HumpAt(word, i) || AcronymAt(word, i)
  {
    if i :| 0 <= i < |word| - 1 && 'a' <= word[i] <= 'z' && 'A' <= word[i + 1] <= 'Z' { assert HumpAt(word, i); }
    if i :| 0 <= i < |word| - 2 && 'A' <= word[i] <= 'Z' && 'A' <= word[i + 1] <= 'Z' && 'a' <= word[i + 2] <= 'z' {
      assert AcronymAt(word, i);
    }
  }

  lemma CallIs(word: string)
    ensures |word| >= 2 && word[|word| - 2..] == "()" <==>
      |word| >= 2 && word[|word| - 2] == '(' && word[|word| - 1] == ')'
  {
    if |word| >= 2 { assert word[|word| - 2..] == [word[|word| - 2], word[|word| - 1]]; }
  }

  lemma CodeIsMarked(word: string)
    requires LooksLikeCode(word)
    ensures exists i: nat :: MarkedAt(word, i)
  {
    CallIs(word);
    CaseBoundaryIs(word);
    hide HasCaseBoundary, HumpAt, AcronymAt;
    if '_' in word {
      var i: nat :| i < |word| && word[i] == '_';
      assert MarkedAt(word, i);
    } else if i :| 0 <= i < |word| - 1 && word[i] == ':' && word[i + 1] == ':' {
      assert MarkedAt(word, i);
    } else if HasCaseBoundary(word) {
      var i: nat :| HumpAt(word, i) || AcronymAt(word, i);
      assert MarkedAt(word, i) by { InWord(word, i); }
    } else {
      assert MarkedAt(word, |word| - 2);
    }
  }

  lemma MarkedIsCode(word: string, i: nat)
    requires MarkedAt(word, i)
    ensures LooksLikeCode(word)
  {
    CallIs(word);
    CaseBoundaryIs(word);
    hide HasCaseBoundary, HumpAt, AcronymAt;
  }

  lemma InWord(word: string, i: nat)
    requires HumpAt(word, i) || AcronymAt(word, i)
    ensures i < |word|
  {
  }

  lemma LooksLikeCodeIff(word: string)
    ensures LooksLikeCode(word) <==> exists i: nat :: MarkedAt(word, i)
  {
    hide MarkedAt, LooksLikeCode;
    if LooksLikeCode(word) { CodeIsMarked(word); }
    if i: nat :| MarkedAt(word, i) { MarkedIsCode(word, i); }
  }

  /** `n` characters of `rest` are a token as far as it goes, with a mark of code in it. */
  ghost predicate IsIdentifier(rest: string, n: nat) {
    && rest != "" && (IsAsciiLetter(rest[0]) || rest[0] == '_') && n <= |rest| && IsToken(rest, n)
    && exists i: nat :: MarkedAt(rest[..n], i)
  }

  lemma IdentifierIff(rest: string, n: nat)
    ensures IdentifierSpan(rest) == Some(n) <==> IsIdentifier(rest, n)
  {
    hide LooksLikeCode, IdentifierSpan, IsToken, MarkedAt;
    IdentifierSpanIff(rest, n);
    IdentifierFits(rest);
    if n <= |rest| { LooksLikeCodeIff(rest[..n]); }
  }

  lemma IdentifierFits(rest: string)
    ensures IdentifierSpan(rest).Some? ==> IdentifierSpan(rest).value <= |rest|
  {
  }

  // ----- the rules in order

  datatype Rule = NameRule | CodeRule | UrlRule | InlineTagRule | MarkerRule | TagRule | IdentifierRule
  {
    function Place(): nat {
      match this
      case NameRule => 0
      case CodeRule => 1
      case UrlRule => 2
      case InlineTagRule => 3
      case MarkerRule => 4
      case TagRule => 5
      case IdentifierRule => 6
    }

    /** A rule about words, which begin where no word character stands in front. */
    predicate IsOfWords() { MarkerRule? || TagRule? || IdentifierRule? }

    function Kind(): SpanKind {
      match this
      case NameRule => PlaceholderSpan
      case CodeRule => Code
      case UrlRule => Url
      case InlineTagRule => Tag
      case MarkerRule => Marker
      case TagRule => Tag
      case IdentifierRule => Identifier
    }
  }

  /** `n` characters of `rest` are spelled like a placeholder: an `X`, digits that are an index, and a `Q`. */
  ghost predicate IsName(rest: string, n: nat) {
    n >= 3 && Digits(rest, n - 2) && AllDigits(rest[1..n - 1]) && Value(rest[1..n - 1]) <= USIZE_MAX
  }

  /** What the rule says of the characters. */
  ghost predicate Says(rule: Rule, rest: string, n: nat) {
    match rule
    case NameRule => IsName(rest, n)
    case CodeRule => IsCode(rest, n)
    case UrlRule => IsLink(rest, n)
    case InlineTagRule => IsInlineTag(rest, n)
    case MarkerRule => IsAttention(rest, n)
    case TagRule => IsTag(rest, n)
    case IdentifierRule => IsIdentifier(rest, n)
  }

  /** The rule claims them, given the character in front. */
  ghost predicate Claims(rule: Rule, rest: string, previous: Option<char>, n: nat) {
    && Says(rule, rest, n)
    && (rule.IsOfWords() ==> previous.None? || !(IsAsciiLetter(previous.value) || IsDigit(previous.value) || previous.value == '_'))
  }

  /** It is the first that claims anything. */
  ghost predicate First(rule: Rule, rest: string, previous: Option<char>) {
    forall r: Rule, m: nat :: r.Place() < rule.Place() ==> !Claims(r, rest, previous, m)
  }

  /** What the rule finds. */
  function Found(rule: Rule, rest: string): Option<nat> {
    match rule
    case NameRule => if PlaceholderAt(rest).Some? then Some(PlaceholderAt(rest).value.1) else None
    case CodeRule => InlineCode(rest)
    case UrlRule => UrlSpan(rest)
    case InlineTagRule => InlineDocTag(rest)
    case MarkerRule => AttentionPrefix(rest)
    case TagRule => DocTag(rest)
    case IdentifierRule => IdentifierSpan(rest)
  }

  lemma NameIff(rest: string, n: nat)
    ensures Found(NameRule, rest) == Some(n) <==> IsName(rest, n)
  {
    hide PlaceholderAt, AllDigits, Value;
    if PlaceholderAt(rest).Some? {
      PlaceholderExactlyWhen(rest, PlaceholderAt(rest).value.0, PlaceholderAt(rest).value.1);
    }
    if IsName(rest, n) { PlaceholderExactlyWhen(rest, Value(rest[1..n - 1]), n); }
  }

  lemma FoundIff(rule: Rule, rest: string, n: nat)
    ensures Found(rule, rest) == Some(n) <==> Says(rule, rest, n)
  {
    hide IsName, IsCode, IsLink, IsInlineTag, IsAttention, IsTag, IsIdentifier, PlaceholderAt, InlineCode, UrlSpan,
      InlineDocTag, AttentionPrefix, DocTag, IdentifierSpan;
    match rule
    case NameRule => NameIff(rest, n);
    case CodeRule => InlineCodeIff(rest, n);
    case UrlRule => LinkIff(rest, n);
    case InlineTagRule => InlineDocTagIff(rest, n);
    case MarkerRule => AttentionIff(rest, n);
    case TagRule => DocTagIff(rest, n);
    case IdentifierRule => IdentifierIff(rest, n);
  }

  lemma ClaimsIff(rule: Rule, rest: string, previous: Option<char>)
    ensures (exists n: nat :: Claims(rule, rest, previous, n)) <==>
      Found(rule, rest).Some? && (rule.IsOfWords() ==> previous.None? || !IsWordCharacter(previous.value))
    ensures forall n: nat :: Claims(rule, rest, previous, n) ==> Found(rule, rest) == Some(n)
  {
    hide Says, Found;
    if Found(rule, rest).Some? { FoundIff(rule, rest, Found(rule, rest).value); }
    forall n: nat | Claims(rule, rest, previous, n) ensures Found(rule, rest) == Some(n) { FoundIff(rule, rest, n); }
    if Found(rule, rest).Some? && (rule.IsOfWords() ==> previous.None? || !IsWordCharacter(previous.value)) {
      assert Claims(rule, rest, previous, Found(rule, rest).value);
    }
  }

  /** The rule finds something, and may. */
  predicate Finds(rule: Rule, rest: string, previous: Option<char>) {
    Found(rule, rest).Some? && (rule.IsOfWords() ==> previous.None? || !IsWordCharacter(previous.value))
  }

  lemma FindsIff(rule: Rule, rest: string, previous: Option<char>)
    ensures !Finds(rule, rest, previous) <==> forall n: nat :: !Claims(rule, rest, previous, n)
    ensures Finds(rule, rest, previous) ==> forall n: nat :: Claims(rule, rest, previous, n) <==> Found(rule, rest) == Some(n)
  {
    hide Claims, Found, IsWordCharacter;
    ClaimsIff(rule, rest, previous);
    if Finds(rule, rest, previous) {
      var n: nat :| Claims(rule, rest, previous, n);
    }
  }

  lemma FirstIff(rule: Rule, rest: string, previous: Option<char>)
    ensures First(rule, rest, previous) <==> forall r: Rule :: r.Place() < rule.Place() ==> !Finds(r, rest, previous)
  {
    hide Claims, Finds;
    forall r: Rule ensures !Finds(r, rest, previous) <==> forall n: nat :: !Claims(r, rest, previous, n) {
      FindsIff(r, rest, previous);
    }
  }

  /** The rule that has its way. */
  function Winner(rest: string, previous: Option<char>): Option<Rule> {
    if Finds(NameRule, rest, previous) then Some(NameRule)
    else if Finds(CodeRule, rest, previous) then Some(CodeRule)
    else if Finds(UrlRule, rest, previous) then Some(UrlRule)
    else if Finds(InlineTagRule, rest, previous) then Some(InlineTagRule)
    else if Finds(MarkerRule, rest, previous) then Some(MarkerRule)
    else if Finds(TagRule, rest, previous) then Some(TagRule)
    else if Finds(IdentifierRule, rest, previous) then Some(IdentifierRule)
    else None
  }

  lemma WinnerIs(rest: string, previous: Option<char>)
    ensures var w := Winner(rest, previous);
      ProtectedSpan(rest, previous) == if w.None? then None else Some((Found(w.value, rest).value, w.value.Kind()))
  {
    hide PlaceholderAt, InlineCode, UrlSpan, InlineDocTag, AttentionPrefix, DocTag, IdentifierSpan, IsWordCharacter;
  }

  lemma WinnerIsFirst(rest: string, previous: Option<char>, rule: Rule)
    ensures Winner(rest, previous) == Some(rule) <==>
      Finds(rule, rest, previous) && forall r: Rule :: r.Place() < rule.Place() ==> !Finds(r, rest, previous)
    ensures Winner(rest, previous).None? ==> !Finds(rule, rest, previous)
  {
    hide Finds;
    assert NameRule.Place() == 0 && CodeRule.Place() == 1 && UrlRule.Place() == 2 && InlineTagRule.Place() == 3;
    assert MarkerRule.Place() == 4 && TagRule.Place() == 5 && IdentifierRule.Place() == 6;
  }

  /** At a place, the first rule that claims something has its way; if none does, nothing is protected there. */
  lemma SpanIff(rest: string, previous: Option<char>, n: nat, kind: SpanKind)
    ensures ProtectedSpan(rest, previous) == Some((n, kind)) <==>
      exists rule: Rule :: Claims(rule, rest, previous, n) && rule.Kind() == kind && First(rule, rest, previous)
    ensures ProtectedSpan(rest, previous).None? <==> forall rule: Rule, m: nat :: !Claims(rule, rest, previous, m)
  {
    hide Claims, First, Finds, Found, Winner;
    WinnerIs(rest, previous);
    var w := Winner(rest, previous);
    if w.Some? {
      WinnerIsFirst(rest, previous, w.value);
      FindsIff(w.value, rest, previous);
      FirstIff(w.value, rest, previous);
      assert Claims(w.value, rest, previous, Found(w.value, rest).value);
    } else {
      forall rule: Rule, m: nat ensures !Claims(rule, rest, previous, m) {
        WinnerIsFirst(rest, previous, rule);
        FindsIff(rule, rest, previous);
      }
    }
    if rule: Rule :| Claims(rule, rest, previous, n) && rule.Kind() == kind && First(rule, rest, previous) {
      FirstIff(rule, rest, previous);
      FindsIff(rule, rest, previous);
      WinnerIsFirst(rest, previous, rule);
    }
  }

  // ----- the scan

  /** What stands in front of character `i`. */
  function Before(text: string, i: nat): Option<char>
    requires i <= |text|
  {
    if i == 0 then None else Some(text[i - 1])
  }

  /** How much of the text a part takes up. */
  function Size(part: Part): nat { match part case Copied(_) => 1 case Hidden(span) => |span.text| }

  /** The parts of `text` from `i` on: where a rule claims characters these are hidden, by the first rule that
    * does, and the scan goes on behind them; a character none claims is copied. */
  ghost predicate Scan(text: string, i: nat, parts: seq<Part>)
    requires i <= |text|
    decreases |parts|
  {
    if parts == [] then i == |text|
    else
      var rest, previous, n := text[i..], Before(text, i), Size(parts[0]);
      && 1 <= n && i + n <= |text|
      && (match parts[0]
          case Hidden(span) => span.text == text[i..i + n] && exists rule: Rule ::
            Claims(rule, rest, previous, n) && rule.Kind() == span.kind && First(rule, rest, previous)
          case Copied(c) => c == text[i] && forall rule: Rule, m: nat :: !Claims(rule, rest, previous, m))
      && Scan(text, i + n, parts[1..])
  }

  lemma {:induction false} PartsScan(text: string, i: nat)
    requires i <= |text|
    ensures Scan(text, i, Parts(text[i..], Before(text, i)))
    decreases |text| - i
  {
    hide Claims, First, Parts, ProtectedSpan;
    var rest, previous := text[i..], Before(text, i);
    if rest == "" {
      Nothing(previous, 0);
    } else {
      PartsStep(rest, previous);
      var span := ProtectedSpan(rest, previous);
      var n := if span.Some? then span.value.0 else 1;
      SpanIff(rest, previous, n, if span.Some? then span.value.1 else Code);
      assert rest[..n] == text[i..i + n] && rest[n..] == text[i + n..] && rest[n - 1] == text[i + n - 1];
      PartsScan(text, i + n);
      var part := if span.Some? then Hidden(Preserved(rest[..n], span.value.1)) else Copied(rest[0]);
      assert ([part] + Parts(text[i + n..], Before(text, i + n)))[1..] == Parts(text[i + n..], Before(text, i + n));
    }
  }

  /** A text is masked by one scan over it: what a rule claims where the scan comes to it is hidden, by the
    * first rule that claims anything, and what is copied no rule claims. */
  lemma MaskIsAScan(text: string)
    ensures exists parts ::
      Scan(text, 0, parts) && Mask(text).masked == Render(parts, 0) && Mask(text).preserved == Spans(parts)
  {
    hide Parts, Render, Spans, Scan;
    PartsScan(text, 0);
    assert text[0..] == text;
  }
}
