/** What the worker is given: jobs, and the comments of them that are not cached yet. */
module Jobs {
  import opened CommentRules
  import opened GlossCache
  import opened GlossKey

  datatype Source = Source(raw: string, rules: Rules)
  {
    function KeyFor(version: string): Key { KeyOf(version, raw, rules) }
  }

  datatype Job = Job(uri: string, sources: seq<Source>)

  /** The documents waiting, after `jobs` on top of `pending`. */
  function Collected(pending: map<string, seq<Source>>, jobs: seq<Job>): map<string, seq<Source>> {
    if jobs == [] then pending
    else
      var job := jobs[|jobs| - 1];
      Collected(pending, jobs[..|jobs| - 1])[job.uri := job.sources]
  }

  /** `quiet` jobs arrive before the queue stays quiet. */
  method CollectUntilQuiet(pending: map<string, seq<Source>>, queue: seq<Job>, quiet: nat)
    returns (waiting: map<string, seq<Source>>)
    requires quiet <= |queue|
    ensures waiting == Collected(pending, queue[..quiet])
  {
    waiting := pending;
    for i := 0 to quiet
      invariant waiting == Collected(pending, queue[..i])
    {
      assert queue[..i + 1][..i] == queue[..i];
      waiting := waiting[queue[i].uri := queue[i].sources];
    }
  }

  /** What waits for a document is all of its last job, and nothing of those before. */
  lemma {:induction false} LastJobWins(pending: map<string, seq<Source>>, jobs: seq<Job>, i: nat)
    requires i < |jobs| && forall j :: i < j < |jobs| ==> jobs[j].uri != jobs[i].uri
    ensures jobs[i].uri in Collected(pending, jobs) && Collected(pending, jobs)[jobs[i].uri] == jobs[i].sources
    decreases |jobs|
  {
    if i < |jobs| - 1 { LastJobWins(pending, jobs[..|jobs| - 1], i); }
  }

  // ----- comments, each once

  /** What of `all` has to be translated: each key that is not cached yet, once. */
  ghost predicate Uncached(cache: Lru, version: string, all: seq<Source>, todo: seq<Source>) {
    && (forall i :: 0 <= i < |todo| ==> todo[i] in all && !cache.Has(todo[i].KeyFor(version)))
    && (forall i, j :: 0 <= i < j < |todo| ==> todo[i].KeyFor(version) != todo[j].KeyFor(version))
    && (forall a :: a in all ==> cache.Has(a.KeyFor(version)) || exists t :: t in todo && t.KeyFor(version) == a.KeyFor(version))
  }

  /** `all` lists the comments of every document waiting. */
  ghost predicate Listed(pending: map<string, seq<Source>>, all: seq<Source>) {
    forall a :: a in all <==> exists uri :: uri in pending && a in pending[uri]
  }

  /** The documents' comments, documents in any order. */
  method ListSources(pending: map<string, seq<Source>>) returns (all: seq<Source>)
    ensures Listed(pending, all)
  {
    all := [];
    var rest := pending.Keys;
    while rest != {}
      invariant rest <= pending.Keys
      invariant forall a :: a in all <==> exists uri :: uri in pending && uri !in rest && a in pending[uri]
      decreases rest
    {
      var uri :| uri in rest;
      rest := rest - {uri};
      all := all + pending[uri];
    }
  }

  method UncachedSources(cache: GlossCache, version: string, pending: map<string, seq<Source>>)
    returns (todo: seq<Source>)
    requires cache.Valid()
    ensures exists all :: Listed(pending, all) && Uncached(cache.State(), version, all, todo)
  {
    hide Listed, Encode;
    var sources := ListSources(pending);
    todo := [];
    var seen: set<Key> := {};
    for i := 0 to |sources|
      invariant forall k :: k in seen <==> exists t :: t in todo && t.KeyFor(version) == k
      invariant Uncached(cache.State(), version, sources[..i], todo)
    {
      var key := sources[i].KeyFor(version);
      assert sources[..i + 1] == sources[..i] + [sources[i]];
      var cached := cache.ContainsKey(key);
      if cached || key in seen {
        continue;
      }
      seen := seen + {key};
      OneMore(cache.State(), version, sources[..i], todo, sources[i]);
      todo := todo + [sources[i]];
    }
    assert sources[..|sources|] == sources;
  }

  lemma OneMore(cache: Lru, version: string, all: seq<Source>, todo: seq<Source>, source: Source)
    requires Uncached(cache, version, all, todo) && !cache.Has(source.KeyFor(version))
    requires forall t :: t in todo ==> t.KeyFor(version) != source.KeyFor(version)
    ensures Uncached(cache, version, all + [source], todo + [source])
  {
    hide KeyOf, Source.KeyFor, Lru.Has;
    var more := todo + [source];
    assert more[|todo|] == source;
    forall a | a in all + [source]
      ensures cache.Has(a.KeyFor(version)) || exists t :: t in more && t.KeyFor(version) == a.KeyFor(version)
    {
      if a in all && !cache.Has(a.KeyFor(version)) {
        var t :| t in todo && t.KeyFor(version) == a.KeyFor(version);
        assert t in more;
      }
    }
  }

  /** Keys tell comments apart, so each comment waiting is cached already or stands in the list itself,
    * which holds none twice. */
  lemma UncachedCovers(cache: Lru, version: string, all: seq<Source>, todo: seq<Source>, a: Source)
    requires NulFree(version) && Uncached(cache, version, all, todo) && a in all
    ensures cache.Has(a.KeyFor(version)) || a in todo
    ensures forall i, j :: 0 <= i < j < |todo| ==> todo[i] != todo[j]
  {
    hide Encode;
    if !cache.Has(a.KeyFor(version)) {
      var t :| t in todo && t.KeyFor(version) == a.KeyFor(version);
      KeysDiffer(version, t.raw, t.rules, version, a.raw, a.rules);
    }
  }
}
