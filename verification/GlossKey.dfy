/** The key of a gloss: the stream of characters the hash is taken of. */
module GlossKey {
  import opened CommentRules

  /** A digest stands for the stream it was made from; no two streams are taken to share one. */
  type Key = string

  function PipelineVersion(): string { "10" }

  predicate NulFree(s: string) { forall i :: 0 <= i < |s| ==> s[i] != '\0' }

  /** Every field with a NUL behind it. */
  function Encode(fields: seq<string>): Key {
    if fields == [] then "" else Encode(fields[..|fields| - 1]) + fields[|fields| - 1] + "\0"
  }

  method Feed(fields: seq<string>) returns (hashed: Key)
    ensures hashed == Encode(fields)
  {
    hashed := "";
    for i := 0 to |fields|
      invariant hashed == Encode(fields[..i])
    {
      assert fields[..i + 1][..i] == fields[..i];
      hashed := hashed + fields[i];
      hashed := hashed + "\0";
    }
    assert fields[..|fields|] == fields;
  }

  function Fields(rules: Rules, modelVersion: string, sourceLanguage: string, targetLanguage: string, text: string): seq<string> {
    [PipelineVersion(), rules.Tag(), modelVersion, sourceLanguage, targetLanguage, text]
  }

  method NewKey(rules: Rules, modelVersion: string, sourceLanguage: string, targetLanguage: string, text: string)
    returns (key: Key)
    ensures key == Encode(Fields(rules, modelVersion, sourceLanguage, targetLanguage, text))
  {
    key := Feed(Fields(rules, modelVersion, sourceLanguage, targetLanguage, text));
  }

  // ----- one stream, one list of fields

  lemma NulAt(a: string, x: string, b: string, y: string)
    requires NulFree(a) && NulFree(b) && a + "\0" + x == b + "\0" + y
    ensures a == b && x == y
  {
    var s, t := a + "\0" + x, b + "\0" + y;
    assert s[|a|] == '\0' && t[|b|] == '\0';
    assert forall i :: 0 <= i < |a| ==> s[i] == a[i];
    assert forall i :: 0 <= i < |b| ==> t[i] == b[i];
    assert a == s[..|a|] && b == t[..|b|];
    assert x == s[|a| + 1..] && y == t[|b| + 1..];
  }

  lemma EncodeLast(fields: seq<string>, last: string)
    ensures Encode(fields + [last]) == Encode(fields) + last + "\0"
  {
    assert (fields + [last])[..|fields|] == fields;
  }

  lemma {:induction false} EncodeFront(fields: seq<string>)
    requires fields != []
    ensures Encode(fields) == fields[0] + "\0" + Encode(fields[1..])
  {
    hide Encode;
    NothingEncoded();
    var k := |fields| - 1;
    assert fields == fields[..k] + [fields[k]];
    EncodeLast(fields[..k], fields[k]);
    if k > 0 {
      EncodeFront(fields[..k]);
      assert fields[..k][1..] == fields[1..k] && fields[1..] == fields[1..k] + [fields[k]];
      EncodeLast(fields[1..k], fields[k]);
    } else {
      assert fields[..0] == [] && fields[1..] == [];
    }
  }

  lemma NothingEncoded()
    ensures Encode([]) == "" && forall s: string :: "" + s == s
  {
  }

  /** Only the last field may hold a NUL; the stream then says where each field ends. */
  lemma {:induction false} EncodeInjective(a: seq<string>, b: seq<string>)
    requires |a| == |b|
    requires forall i :: 0 <= i < |a| - 1 ==> NulFree(a[i]) && NulFree(b[i])
    ensures Encode(a) == Encode(b) <==> a == b
  {
    hide NulFree;
    if a != [] {
      EncodeFront(a);
      EncodeFront(b);
      EncodeInjective(a[1..], b[1..]);
      if Encode(a) == Encode(b) && |a| > 1 {
        NulAt(a[0], Encode(a[1..]), b[0], Encode(b[1..]));
        assert a == [a[0]] + a[1..] && b == [b[0]] + b[1..];
      }
      if |a| == 1 {
        assert a[1..] == [] && b[1..] == [] && a == [a[0]] && b == [b[0]];
        assert Encode(a)[..|Encode(a)| - 1] == a[0] && Encode(b)[..|Encode(b)| - 1] == b[0];
      }
    }
  }

  /** The key under which the gloss of the comment `raw` is kept for an engine of that version. */
  function KeyOf(modelVersion: string, raw: string, rules: Rules): Key {
    Encode(Fields(rules, modelVersion, "en", "ja", raw))
  }

  lemma TagsDiffer(a: Rules, b: Rules)
    ensures NulFree(a.Tag()) && NulFree(b.Tag()) && (a.Tag() == b.Tag() <==> a == b)
  {
  }

  /** No two engines, sets of rules or comments share a key; the comment itself may hold anything. */
  lemma KeysDiffer(v: string, raw: string, rules: Rules, v': string, raw': string, rules': Rules)
    requires NulFree(v) && NulFree(v')
    ensures KeyOf(v, raw, rules) == KeyOf(v', raw', rules') <==> v == v' && raw == raw' && rules == rules'
  {
    hide Encode, Rules.Tag, PipelineVersion;
    TagsDiffer(rules, rules');
    FixedFields();
    var a, b := Fields(rules, v, "en", "ja", raw), Fields(rules', v', "en", "ja", raw');
    EncodeInjective(a, b);
    assert a[1] == rules.Tag() && a[2] == v && a[5] == raw;
    assert b[1] == rules'.Tag() && b[2] == v' && b[5] == raw';
  }

  lemma FixedFields()
    ensures NulFree(PipelineVersion()) && NulFree("en") && NulFree("ja")
  {
  }

  // ----- versions that hold a NUL

  /** What stands between the version and the comment. */
  function Between(): string { "\0en\0ja\0" }

  lemma KeyIs(v: string, raw: string, rules: Rules)
    ensures KeyOf(v, raw, rules) == PipelineVersion() + "\0" + (rules.Tag() + "\0" + (v + (Between() + (raw + "\0"))))
  {
    hide Encode, Rules.Tag, PipelineVersion;
    var p, t := PipelineVersion(), rules.Tag();
    NothingEncoded();
    EncodeLast([], p);
    EncodeLast([p], t);
    EncodeLast([p, t], v);
    EncodeLast([p, t, v], "en");
    EncodeLast([p, t, v, "en"], "ja");
    EncodeLast([p, t, v, "en", "ja"], raw);
    assert [] + [p] == [p] && [p] + [t] == [p, t] && [p, t] + [v] == [p, t, v] && [p, t, v] + ["en"] == [p, t, v, "en"];
    assert [p, t, v, "en"] + ["ja"] == [p, t, v, "en", "ja"];
    assert [p, t, v, "en", "ja"] + [raw] == Fields(rules, v, "en", "ja", raw);
    assert "\0" + "en" + "\0" + "ja" + "\0" == Between();
    assert KeyOf(v, raw, rules) == p + "\0" + t + "\0" + v + "\0" + "en" + "\0" + "ja" + "\0" + raw + "\0";
    assert v + "\0" + "en" + "\0" + "ja" + "\0" == v + Between();
    Grouped(p, t, v, Between(), raw);
  }

  lemma Grouped(p: string, t: string, v: string, between: string, raw: string)
    ensures p + "\0" + t + "\0" + (v + between) + raw + "\0" == p + "\0" + (t + "\0" + (v + (between + (raw + "\0"))))
  {
  }

  /** The stream, character for character. */
  lemma KeyStream(v: string, raw: string)
    ensures KeyOf(v, raw, Fenced) == "10\0fenced\0" + v + "\0en\0ja\0" + raw + "\0"
    ensures KeyOf(v, raw, FencedUntagged) == "10\0fenced-untagged\0" + v + "\0en\0ja\0" + raw + "\0"
    ensures KeyOf(v, raw, Indentation) == "10\0indented\0" + v + "\0en\0ja\0" + raw + "\0"
  {
    KeyIs(v, raw, Fenced);
    KeyIs(v, raw, FencedUntagged);
    KeyIs(v, raw, Indentation);
    hide KeyOf;
    InFront("fenced", v, Between(), raw);
    InFront("fenced-untagged", v, Between(), raw);
    InFront("indented", v, Between(), raw);
    assert "10" + "\0" + "fenced" + "\0" == "10\0fenced\0";
    assert "10" + "\0" + "fenced-untagged" + "\0" == "10\0fenced-untagged\0";
    assert "10" + "\0" + "indented" + "\0" == "10\0indented\0";
  }

  lemma InFront(tag: string, v: string, between: string, raw: string)
    ensures "10" + "\0" + (tag + "\0" + (v + (between + (raw + "\0")))) == ("10" + "\0" + tag + "\0") + v + between + raw + "\0"
  {
  }

  /** Some comment of the one version has the key of some comment of the other. */
  ghost predicate Collide(v: string, w: string) {
    exists raw, rules, raw', rules' :: KeyOf(v, raw, rules) == KeyOf(w, raw', rules')
  }

  /** The longer version is the other and what stands behind that, as far as its last NUL or beyond it. */
  predicate Swallows(w: string, v: string) { w == v + "\0en\0ja" || v + Between() <= w }

  /** Two versions, holding what they may, share a key exactly when the longer has swallowed what follows the
    * shorter. */
  lemma VersionsCollide(v: string, w: string)
    requires v != w && |v| <= |w|
    ensures Collide(v, w) <==> Swallows(w, v)
  {
    hide KeyOf, Between;
    if Collide(v, w) {
      var raw, rules, raw', rules' :| KeyOf(v, raw, rules) == KeyOf(w, raw', rules');
      SameBehind(v, raw, rules, w, raw', rules');
      SwallowsOnly(v, raw + "\0", w, raw' + "\0");
    }
    if Swallows(w, v) { SwallowedCollides(v, w, Fenced); }
  }

  lemma SameBehind(v: string, raw: string, rules: Rules, w: string, raw': string, rules': Rules)
    requires KeyOf(v, raw, rules) == KeyOf(w, raw', rules')
    ensures rules == rules' && v + (Between() + (raw + "\0")) == w + (Between() + (raw' + "\0"))
  {
    KeyIs(v, raw, rules);
    KeyIs(w, raw', rules');
    FixedFields();
    TagsDiffer(rules, rules');
    hide KeyOf, Between, Rules.Tag, PipelineVersion, NulFree;
    var x, y := v + (Between() + (raw + "\0")), w + (Between() + (raw' + "\0"));
    NulAt(PipelineVersion(), rules.Tag() + "\0" + x, PipelineVersion(), rules'.Tag() + "\0" + y);
    NulAt(rules.Tag(), x, rules'.Tag(), y);
  }

  lemma SwallowsOnly(v: string, x: string, w: string, y: string)
    requires v != w && |v| <= |w|
    requires v + (Between() + x) == w + (Between() + y)
    ensures Swallows(w, v)
  {
    hide Between;
    var s, t := v + (Between() + x), w + (Between() + y);
    assert v == s[..|v|] == t[..|v|] == w[..|v|];
    var extra := w[|v|..];
    assert Between() + x == s[|v|..] == t[|v|..] == extra + (Between() + y);
    assert w == v + extra;
    ExtraIs(extra, x, y);
    if Between() <= extra {
      assert extra == Between() + extra[|Between()|..];
      assert w == v + Between() + extra[|Between()|..];
    }
  }

  lemma ExtraIs(extra: string, x: string, y: string)
    requires extra != "" && Between() + x == extra + (Between() + y)
    ensures extra == "\0en\0ja" || Between() <= extra
  {
    var s, n := Between() + x, |extra|;
    assert s[n] == (Between() + y)[0] == '\0' && s[n + 1] == (Between() + y)[1] == 'e';
    assert s[1] == 'e' && s[2] == 'n' && s[3] == '\0' && s[4] == 'j' && s[5] == 'a';
    assert forall i :: 0 <= i < n ==> extra[i] == s[i];
    assert n >= 6;
    if n > 6 {
      assert extra[..7] == s[..7] == Between();
    }
  }

  lemma SwallowedCollides(v: string, w: string, rules: Rules)
    requires Swallows(w, v)
    ensures Collide(v, w)
  {
    hide KeyOf, Between;
    if w == v + "\0en\0ja" {
      NulInVersionCollides(rules, v, "");
    } else {
      var rest := w[|v + Between()|..];
      assert w == v + Between() + rest;
      Again(v, Between(), rest);
      SameStream(v, rest + Between(), w, "", rules);
    }
  }

  lemma SameStream(v: string, raw: string, w: string, raw': string, rules: Rules)
    requires v + (Between() + (raw + "\0")) == w + (Between() + (raw' + "\0"))
    ensures KeyOf(v, raw, rules) == KeyOf(w, raw', rules)
  {
    hide KeyOf, Between, Rules.Tag, PipelineVersion;
    KeyIs(v, raw, rules);
    KeyIs(w, raw', rules);
  }

  lemma Again(v: string, between: string, rest: string)
    ensures v + (between + ((rest + between) + "\0")) == (v + between + rest) + (between + ("" + "\0"))
  {
  }

  /** With a NUL in it, a version can pass for another one that has swallowed part of the comment. */
  lemma NulInVersionCollides(rules: Rules, v: string, raw: string)
    ensures KeyOf(v, "en\0ja\0" + raw, rules) == KeyOf(v + "\0en\0ja", raw, rules)
  {
    SixAgain(v, raw);
    hide KeyOf, Between;
    SameStream(v, "en\0ja\0" + raw, v + "\0en\0ja", raw, rules);
  }

  lemma SixAgain(v: string, raw: string)
    ensures v + (Between() + ("en\0ja\0" + raw + "\0")) == (v + "\0en\0ja") + (Between() + (raw + "\0"))
  {
    assert Between() + ("en\0ja\0" + raw + "\0") == "\0en\0ja" + (Between() + (raw + "\0"));
  }
}
