/** The per-identifier loop shared by the annotation functions: for each identifier
    in input order, take the payload from the call's own cache or fetch it; a failed
    fetch records the identifier (with its error) in the failures and moves on, a
    successful one is flattened into rows.

    The web service is an oracle `fetch(prot, n)`: the answer to the request for
    `prot` issued after `n` earlier requests of the same call (so asking again for an
    identifier that failed may succeed). This module describes what the loop does as
    a trace of functions, which the annotation methods are proved to follow. */
module Pipeline {

  datatype Fetch<P> = Fetched(payload: P) | FetchFailed(error: string)

  /** How one input position was served. */
  datatype Served<P> = FromCache(payload: P) | FromFetch(payload: P) | NotServed(error: string)
  {
    predicate Succeeded() { !NotServed? }
  }

  /** One row of the failures table: `failed_protein`, `error`. */
  datatype Failure = Failure(protein: string, error: string)

  /** The loop's state after a prefix of the input: the cache, every request issued
      (in order) and how each position was served. */
  datatype Trace<P> = Trace(cache: map<string, P>, requests: seq<string>, served: seq<Served<P>>)

  /** One iteration for identifier `prot`. With `caching`, a cached payload is reused
      and a successful fetch is stored; a failure is never stored. */
  function Step<P>(t: Trace<P>, prot: string, fetch: (string, nat) -> Fetch<P>, caching: bool): Trace<P>
  {
    if caching && prot in t.cache then
      Trace(t.cache, t.requests, t.served + [FromCache(t.cache[prot])])
    else
      match fetch(prot, |t.requests|)
      case FetchFailed(e) => Trace(t.cache, t.requests + [prot], t.served + [NotServed(e)])
      case Fetched(p) =>
        Trace(if caching then t.cache[prot := p] else t.cache, t.requests + [prot], t.served + [FromFetch(p)])
  }

  /** The loop's state after all of `ids`. */
  function Serve<P>(ids: seq<string>, fetch: (string, nat) -> Fetch<P>, caching: bool): (t: Trace<P>)
    ensures |t.served| == |ids|
  {
    if ids == [] then Trace(map[], [], [])
    else Step(Serve(ids[..|ids| - 1], fetch, caching), ids[|ids| - 1], fetch, caching)
  }

  /** The head of the loop body in the caching pipelines: the cached payload when
      the identifier is in the cache, otherwise one request, whose payload is cached
      when it succeeds. */
  method ServeCached<P>(prot: string, fetch: (string, nat) -> Fetch<P>,
                        cache: map<string, P>, requests: seq<string>, ghost served: seq<Served<P>>)
    returns (outcome: Served<P>, cache': map<string, P>, requests': seq<string>)
    ensures Step(Trace(cache, requests, served), prot, fetch, true) == Trace(cache', requests', served + [outcome])
  {
    if prot in cache {
      return FromCache(cache[prot]), cache, requests;
    }
    var response := fetch(prot, |requests|);
    requests' := requests + [prot];
    if response.FetchFailed? {
      return NotServed(response.error), cache, requests';
    }
    outcome, cache' := FromFetch(response.payload), cache[prot := response.payload];
  }

  /** The failures table: one row per position whose fetch failed, in input order. */
  function Failures<P>(ids: seq<string>, served: seq<Served<P>>): seq<Failure>
    requires |ids| == |served|
  {
    if ids == [] then []
    else
      var n := |ids| - 1;
      Failures(ids[..n], served[..n])
        + (if served[n].NotServed? then [Failure(ids[n], served[n].error)] else [])
  }

  /** The identifiers of the positions that were served a payload, in input order. */
  function ServedIds<P>(ids: seq<string>, served: seq<Served<P>>): seq<string>
    requires |ids| == |served|
  {
    if ids == [] then []
    else
      var n := |ids| - 1;
      ServedIds(ids[..n], served[..n]) + (if served[n].Succeeded() then [ids[n]] else [])
  }

  /** The identifiers of the positions that were not served from the cache. */
  function Misses<P>(ids: seq<string>, served: seq<Served<P>>): seq<string>
    requires |ids| == |served|
  {
    if ids == [] then []
    else
      var n := |ids| - 1;
      Misses(ids[..n], served[..n]) + (if served[n].FromCache? then [] else [ids[n]])
  }

  /** The results table: the rows flattened from each served payload, in input order. */
  function Collect<P, R>(ids: seq<string>, served: seq<Served<P>>, flatten: (string, P) -> seq<R>): seq<R>
    requires |ids| == |served|
  {
    if ids == [] then []
    else
      var n := |ids| - 1;
      Collect(ids[..n], served[..n], flatten)
        + (if served[n].Succeeded() then flatten(ids[n], served[n].payload) else [])
  }

  // ---------------------------------------------------------------------------
  // What a prefix of the loop did is what the whole loop did on that prefix.

  lemma {:induction false} ServePrefix<P>(ids: seq<string>, fetch: (string, nat) -> Fetch<P>, caching: bool, k: nat)
    requires k <= |ids|
    ensures Serve(ids[..k], fetch, caching).served == Serve(ids, fetch, caching).served[..k]
    decreases |ids|
  {
    if k < |ids| {
      var init := ids[..|ids| - 1];
      ServePrefix(init, fetch, caching, k);
      assert init[..k] == ids[..k];
    } else {
      assert ids[..k] == ids;
    }
  }

  /** One more position: the state, failures and rows after `ids[..k + 1]` extend
      those after `ids[..k]` by what the outcome at position `k` adds. */
  lemma Advance<P, R>(ids: seq<string>, k: nat, fetch: (string, nat) -> Fetch<P>, caching: bool,
                      flatten: (string, P) -> seq<R>)
    requires k < |ids|
    ensures var t, t' := Serve(ids[..k], fetch, caching), Serve(ids[..k + 1], fetch, caching);
      && t' == Step(t, ids[k], fetch, caching)
      && t'.served == t.served + [t'.served[k]]
      && Failures(ids[..k + 1], t'.served)
         == Failures(ids[..k], t.served)
            + (if t'.served[k].NotServed? then [Failure(ids[k], t'.served[k].error)] else [])
      && Collect(ids[..k + 1], t'.served, flatten)
         == Collect(ids[..k], t.served, flatten)
            + (if t'.served[k].Succeeded() then flatten(ids[k], t'.served[k].payload) else [])
  {
    assert ids[..k + 1][..k] == ids[..k];
  }

  // ---------------------------------------------------------------------------
  // Requests

  /** A request is issued for exactly the positions not served from the cache, in order. */
  lemma {:induction false} RequestsAreMisses<P>(ids: seq<string>, fetch: (string, nat) -> Fetch<P>, caching: bool)
    ensures var t := Serve(ids, fetch, caching); t.requests == Misses(ids, t.served)
  {
    if ids != [] {
      var n := |ids| - 1;
      RequestsAreMisses(ids[..n], fetch, caching);
      var t := Serve(ids, fetch, caching);
      assert t.served[..n] == Serve(ids[..n], fetch, caching).served;
    }
  }

  /** Without a cache lookup every position is fetched: the request log is the input. */
  lemma {:induction false} UncachedFetchesAll<P>(ids: seq<string>, fetch: (string, nat) -> Fetch<P>)
    ensures var t := Serve(ids, fetch, false);
      && t.requests == ids
      && forall k :: 0 <= k < |ids| ==> !t.served[k].FromCache?
  {
    if ids != [] {
      var n := |ids| - 1;
      UncachedFetchesAll(ids[..n], fetch);
      assert ids == ids[..n] + [ids[n]];
    }
  }

  // ---------------------------------------------------------------------------
  // The cache

  /** Some position before `k` fetched the identifier at `k` successfully. */
  ghost predicate FetchedBefore<P>(ids: seq<string>, served: seq<Served<P>>, k: int)
    requires |ids| == |served| && 0 <= k < |ids|
  {
    exists j :: 0 <= j < k && ids[j] == ids[k] && served[j].FromFetch?
  }

  /** The cache holds exactly the identifiers fetched successfully so far. */
  ghost predicate KeysAreFetched<P>(ids: seq<string>, t: Trace<P>)
    requires |ids| == |t.served|
  {
    forall x :: x in t.cache <==> exists j :: 0 <= j < |ids| && ids[j] == x && t.served[j].FromFetch?
  }

  /** Each stored payload is the one every successful position of its identifier got. */
  ghost predicate CacheAgrees<P>(ids: seq<string>, t: Trace<P>)
    requires |ids| == |t.served|
  {
    forall j :: 0 <= j < |ids| && t.served[j].Succeeded() ==>
      ids[j] in t.cache && t.cache[ids[j]] == t.served[j].payload
  }

  /** A position is a cache hit exactly when its identifier was fetched before. */
  ghost predicate HitsAfterFetch<P>(ids: seq<string>, t: Trace<P>)
    requires |ids| == |t.served|
  {
    forall k :: 0 <= k < |ids| ==> (t.served[k].FromCache? <==> FetchedBefore(ids, t.served, k))
  }

  lemma KeysStep<P>(init: seq<string>, x: string, t0: Trace<P>, fetch: (string, nat) -> Fetch<P>)
    requires |init| == |t0.served| && KeysAreFetched(init, t0)
    ensures KeysAreFetched(init + [x], Step(t0, x, fetch, true))
  {
    var ids, t, n := init + [x], Step(t0, x, fetch, true), |init|;
    assert t.served[..n] == t0.served;
    assert t.cache.Keys == if t.served[n].FromFetch? then t0.cache.Keys + {x} else t0.cache.Keys;
    forall y ensures y in t.cache <==> exists j :: 0 <= j < |ids| && ids[j] == y && t.served[j].FromFetch? {
      if y in t0.cache {
        var j :| 0 <= j < |init| && init[j] == y && t0.served[j].FromFetch?;
        assert ids[j] == y && t.served[j] == t0.served[j];
      }
      if y == x && t.served[n].FromFetch? {
        assert ids[n] == y;
      }
      if exists j :: 0 <= j < |ids| && ids[j] == y && t.served[j].FromFetch? {
        var j :| 0 <= j < |ids| && ids[j] == y && t.served[j].FromFetch?;
        if j < |init| {
          assert init[j] == y && t0.served[j] == t.served[j];
        }
      }
    }
  }

  lemma HitsStep<P>(init: seq<string>, x: string, t0: Trace<P>, fetch: (string, nat) -> Fetch<P>)
    requires |init| == |t0.served| && KeysAreFetched(init, t0) && HitsAfterFetch(init, t0)
    ensures HitsAfterFetch(init + [x], Step(t0, x, fetch, true))
  {
    var ids, t, n := init + [x], Step(t0, x, fetch, true), |init|;
    forall k | 0 <= k < |ids|
      ensures t.served[k].FromCache? <==> FetchedBefore(ids, t.served, k)
    {
      if k < n {
        assert t.served[k] == t0.served[k];
        if FetchedBefore(ids, t.served, k) {
          var j :| 0 <= j < k && ids[j] == ids[k] && t.served[j].FromFetch?;
          assert t0.served[j] == t.served[j] && init[j] == ids[j];
          assert FetchedBefore(init, t0.served, k);
        }
        if FetchedBefore(init, t0.served, k) {
          var j :| 0 <= j < k && init[j] == init[k] && t0.served[j].FromFetch?;
          assert t.served[j] == t0.served[j] && ids[j] == init[j];
        }
      } else {
        if x in t0.cache {
          var j :| 0 <= j < n && init[j] == x && t0.served[j].FromFetch?;
          assert t.served[j] == t0.served[j] && ids[j] == init[j];
        }
        if FetchedBefore(ids, t.served, n) {
          var j :| 0 <= j < n && ids[j] == ids[n] && t.served[j].FromFetch?;
          assert t0.served[j] == t.served[j] && init[j] == ids[j];
        }
      }
    }
  }

  lemma AgreesStep<P>(init: seq<string>, x: string, t0: Trace<P>, fetch: (string, nat) -> Fetch<P>)
    requires |init| == |t0.served|
    requires KeysAreFetched(init, t0) && HitsAfterFetch(init, t0) && CacheAgrees(init, t0)
    ensures CacheAgrees(init + [x], Step(t0, x, fetch, true))
  {
    var ids, t, n := init + [x], Step(t0, x, fetch, true), |init|;
    forall j | 0 <= j < |ids| && t.served[j].Succeeded()
      ensures ids[j] in t.cache && t.cache[ids[j]] == t.served[j].payload
    {
      if j < n {
        assert t0.served[j] == t.served[j] && init[j] == ids[j];
        if ids[j] == x {
          // a stored identifier is served from the cache, which stays as it was
          assert x in t0.cache by {
            if t0.served[j].FromCache? {
              assert FetchedBefore(init, t0.served, j);
              var i :| 0 <= i < j && init[i] == init[j] && t0.served[i].FromFetch?;
            }
          }
          assert t.cache == t0.cache;
        }
      }
    }
  }

  /** What the cache holds: exactly the identifiers fetched successfully so far, each
      with the payload every successful position of that identifier was served; and a
      position is a cache hit exactly when its identifier was fetched before. */
  lemma {:induction false} CacheContents<P>(ids: seq<string>, fetch: (string, nat) -> Fetch<P>)
    ensures var t := Serve(ids, fetch, true);
      KeysAreFetched(ids, t) && CacheAgrees(ids, t) && HitsAfterFetch(ids, t)
  {
    if ids != [] {
      var n := |ids| - 1;
      var init, x := ids[..n], ids[n];
      CacheContents(init, fetch);
      var t0 := Serve(init, fetch, true);
      assert ids == init + [x];
      KeysStep(init, x, t0, fetch);
      HitsStep(init, x, t0, fetch);
      AgreesStep(init, x, t0, fetch);
    }
  }

  /** With the cache, an identifier fetched successfully is never requested again: every
      later position with that identifier is served the same payload from the cache.
      A failure is not cached, so the next position with that identifier fetches again. */
  lemma SuccessFetchedOnce<P>(ids: seq<string>, fetch: (string, nat) -> Fetch<P>, i: nat, j: nat)
    requires i < j < |ids| && ids[i] == ids[j]
    ensures var t := Serve(ids, fetch, true);
      && (t.served[i].Succeeded() ==> t.served[j] == FromCache(t.served[i].payload))
      && (!t.served[j].FromCache? <==> forall h :: 0 <= h < j && ids[h] == ids[j] ==> !t.served[h].FromFetch?)
  {
    CacheContents(ids, fetch);
    var t := Serve(ids, fetch, true);
    assert HitsAfterFetch(ids, t) && CacheAgrees(ids, t);
    if t.served[i].FromCache? {
      assert FetchedBefore(ids, t.served, i);
      var h :| 0 <= h < i && ids[h] == ids[i] && t.served[h].FromFetch?;
      assert FetchedBefore(ids, t.served, j);
    } else if t.served[i].FromFetch? {
      assert FetchedBefore(ids, t.served, j);
    }
  }

  // ---------------------------------------------------------------------------
  // Accounting

  /** Every position lands in exactly one bucket: a failure row, or a served payload. */
  lemma {:induction false} EachPositionOnce<P>(ids: seq<string>, served: seq<Served<P>>)
    requires |ids| == |served|
    ensures |Failures(ids, served)| + |ServedIds(ids, served)| == |ids|
  {
    if ids != [] {
      var n := |ids| - 1;
      EachPositionOnce(ids[..n], served[..n]);
    }
  }

  function FailedIds(failures: seq<Failure>): (r: seq<string>)
    ensures |r| == |failures| && forall k :: 0 <= k < |r| ==> r[k] == failures[k].protein
  {
    seq(|failures|, k requires 0 <= k < |failures| => failures[k].protein)
  }

  /** No identifier is listed twice. */
  predicate Distinct(ids: seq<string>)
  {
    forall i, j :: 0 <= i < j < |ids| ==> ids[i] != ids[j]
  }

  /** Only input identifiers appear in either bucket. */
  lemma {:induction false} BucketsFromInput<P>(ids: seq<string>, served: seq<Served<P>>)
    requires |ids| == |served|
    ensures forall x :: x in FailedIds(Failures(ids, served)) ==> x in ids
    ensures forall x :: x in ServedIds(ids, served) ==> x in ids
  {
    if ids != [] {
      var n := |ids| - 1;
      BucketsFromInput(ids[..n], served[..n]);
      assert FailedIds(Failures(ids, served)) == FailedIds(Failures(ids[..n], served[..n]))
        + (if served[n].NotServed? then [ids[n]] else []);
    }
  }

  function Elems(s: seq<string>): set<string>
  {
    set x | x in s
  }

  lemma ElemsAppend(s: seq<string>, x: string)
    ensures Elems(s + [x]) == Elems(s) + {x}
  {
  }

  /** For input without duplicates, the failed identifiers and the served identifiers
      are disjoint and together are the input. */
  lemma {:induction false} BucketsPartitionInput<P>(ids: seq<string>, served: seq<Served<P>>)
    requires |ids| == |served| && Distinct(ids)
    ensures var failed, ok := Elems(FailedIds(Failures(ids, served))), Elems(ServedIds(ids, served));
      && failed * ok == {}
      && failed + ok == Elems(ids)
  {
    if ids != [] {
      var n := |ids| - 1;
      var init, x := ids[..n], ids[n];
      BucketsPartitionInput(init, served[..n]);
      BucketsFromInput(init, served[..n]);
      var f0, s0 := FailedIds(Failures(init, served[..n])), ServedIds(init, served[..n]);
      var f, s := FailedIds(Failures(ids, served)), ServedIds(ids, served);
      assert ids == init + [x];
      ElemsAppend(init, x);
      forall i | 0 <= i < n ensures init[i] != x {
        assert ids[i] == init[i];
      }
      assert x !in Elems(f0) && x !in Elems(s0);
      if served[n].NotServed? {
        assert f == f0 + [x] && s == s0;
        ElemsAppend(f0, x);
      } else {
        assert f == f0 && s == s0 + [x];
        ElemsAppend(s0, x);
      }
    }
  }

  /** A flattening that gives one row per payload, keyed by the identifier, makes
      the results table one row per served position, in input order. */
  lemma {:induction false} OneRowEach<P, R>(ids: seq<string>, served: seq<Served<P>>,
                                             flatten: (string, P) -> seq<R>, key: R -> string)
    requires |ids| == |served|
    requires forall prot, p :: |flatten(prot, p)| == 1 && key(flatten(prot, p)[0]) == prot
    ensures var rows, ok := Collect(ids, served, flatten), ServedIds(ids, served);
      && |rows| == |ok|
      && forall k :: 0 <= k < |rows| ==> key(rows[k]) == ok[k]
  {
    if ids != [] {
      var n := |ids| - 1;
      OneRowEach(ids[..n], served[..n], flatten, key);
    }
  }
}
