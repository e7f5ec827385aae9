/** `annot_GO`: Gene Ontology annotations from QuickGO, one row per identifier whose
    request succeeded, with the distinct GO terms in first-occurrence order and how
    many of them are in three reference lists (RNA, DNA and nucleic-acid binding). */
module GeneOntology {
  import opened Wrappers
  import opened Strings
  import opened Pipeline

  /** One entry of `payload["results"]`. */
  datatype GoAnnotation = GoAnnotation(goId: string, goAspect: string)

  datatype GoPayload = GoPayload(results: seq<GoAnnotation>)

  /** The three reference lists of GO terms. */
  datatype GoReferences = GoReferences(rna: seq<string>, dna: seq<string>, na: seq<string>)

  /** One row of the result: `UniqueID`, `go_terms`, `go_aspects`, `invs_RNAbind`,
      `invs_DNAbind`, `invs_NAbind`. */
  datatype GoRow = GoRow(
    uniqueId: string,
    goTerms: seq<string>,
    goAspects: seq<string>,
    rnaCount: nat,
    dnaCount: nat,
    naCount: nat)

  /** `open(path).read().split("\n")[:-1]`: the lines of a reference file, dropping
      the text after the last newline. */
  function ReferenceList(text: string): (lines: seq<string>)
    ensures |lines| == |Split(text, '\n')| - 1
  {
    var parts := Split(text, '\n');
    parts[..|parts| - 1]
  }

  /** A file of newline-terminated lines reads back as those lines. */
  lemma ReferenceListOfLines(lines: seq<string>)
    requires forall k :: 0 <= k < |lines| ==> '\n' !in lines[k]
    ensures ReferenceList(Join(lines + [""], '\n')) == lines
  {
    SplitJoin(lines + [""], '\n');
    assert (lines + [""])[..|lines|] == lines;
  }

  /** The identifiers of a list of annotations. */
  function GoIds(xs: seq<GoAnnotation>): (ids: seq<string>)
    ensures |ids| == |xs| && forall k :: 0 <= k < |xs| ==> ids[k] == xs[k].goId
  {
    seq(|xs|, k requires 0 <= k < |xs| => xs[k].goId)
  }

  /** The aspects of a list of annotations. */
  function GoAspects(xs: seq<GoAnnotation>): (aspects: seq<string>)
    ensures |aspects| == |xs| && forall k :: 0 <= k < |xs| ==> aspects[k] == xs[k].goAspect
  {
    seq(|xs|, k requires 0 <= k < |xs| => xs[k].goAspect)
  }

  /** The annotations the loop keeps: each one whose identifier is not yet in
      `cache_small`, which holds the identifiers kept so far. */
  function FirstOccurrences(xs: seq<GoAnnotation>): seq<GoAnnotation>
  {
    if xs == [] then []
    else
      var n := |xs| - 1;
      var init := FirstOccurrences(xs[..n]);
      if xs[n].goId in GoIds(init) then init else init + [xs[n]]
  }

  /** How many of `terms` are in `reference` (`x in list` is membership). */
  function CountIn(terms: seq<string>, reference: seq<string>): (c: nat)
    ensures c <= |terms|
  {
    if terms == [] then 0
    else CountIn(terms[..|terms| - 1], reference) + (if terms[|terms| - 1] in reference then 1 else 0)
  }

  lemma ListsAppend(xs: seq<GoAnnotation>, x: GoAnnotation)
    ensures GoIds(xs + [x]) == GoIds(xs) + [x.goId]
    ensures GoAspects(xs + [x]) == GoAspects(xs) + [x.goAspect]
  {
  }

  lemma CountAppend(terms: seq<string>, t: string, reference: seq<string>)
    ensures CountIn(terms + [t], reference) == CountIn(terms, reference) + (if t in reference then 1 else 0)
  {
    assert (terms + [t])[..|terms|] == terms;
  }

  /** The row built from one payload. */
  function GoRowOf(prot: string, p: GoPayload, refs: GoReferences): GoRow
  {
    var terms := GoIds(FirstOccurrences(p.results));
    GoRow(prot, terms, GoAspects(FirstOccurrences(p.results)),
          CountIn(terms, refs.rna), CountIn(terms, refs.dna), CountIn(terms, refs.na))
  }

  /** The loop over `payload["results"]`, with its `cache_small` list and counters. */
  method BuildGoRow(prot: string, p: GoPayload, refs: GoReferences) returns (row: GoRow)
    ensures row == GoRowOf(prot, p, refs)
  {
    var results := p.results;
    var rnaCount, dnaCount, naCount := 0, 0, 0;
    var cacheSmall: seq<string> := [];
    var goTerms: seq<string> := [];
    var goAspects: seq<string> := [];
    for k := 0 to |results|
      invariant cacheSmall == goTerms == GoIds(FirstOccurrences(results[..k]))
      invariant goAspects == GoAspects(FirstOccurrences(results[..k]))
      invariant rnaCount == CountIn(goTerms, refs.rna)
      invariant dnaCount == CountIn(goTerms, refs.dna)
      invariant naCount == CountIn(goTerms, refs.na)
    {
      var el := results[k];
      assert results[..k + 1][..k] == results[..k];
      ghost var before := FirstOccurrences(results[..k]);
      if el.goId in cacheSmall {
        assert FirstOccurrences(results[..k + 1]) == before;
        continue;
      }
      assert FirstOccurrences(results[..k + 1]) == before + [el];
      ListsAppend(before, el);
      CountAppend(goTerms, el.goId, refs.rna);
      CountAppend(goTerms, el.goId, refs.dna);
      CountAppend(goTerms, el.goId, refs.na);
      cacheSmall := cacheSmall + [el.goId];
      goTerms := goTerms + [el.goId];
      goAspects := goAspects + [el.goAspect];
      if el.goId in refs.rna {
        rnaCount := rnaCount + 1;
      }
      if el.goId in refs.dna {
        dnaCount := dnaCount + 1;
      }
      if el.goId in refs.na {
        naCount := naCount + 1;
      }
    }
    assert results[..|results|] == results;
    row := GoRow(prot, goTerms, goAspects, rnaCount, dnaCount, naCount);
  }

  // ---------------------------------------------------------------------------
  // First occurrences

  /** Position `i` holds the first occurrence of its identifier. */
  predicate IsFirst(xs: seq<GoAnnotation>, i: nat)
    requires i < |xs|
  {
    xs[i].goId !in GoIds(xs[..i])
  }

  /** The positions of first occurrences, in increasing order. */
  function FirstPositions(xs: seq<GoAnnotation>): (ps: seq<nat>)
    ensures forall j :: 0 <= j < |ps| ==> ps[j] < |xs|
  {
    if xs == [] then []
    else
      var n := |xs| - 1;
      FirstPositions(xs[..n]) + (if IsFirst(xs, n) then [n] else [])
  }

  /** The kept identifiers are exactly the identifiers of the input, each once. */
  lemma {:induction false} KeptIds(xs: seq<GoAnnotation>)
    ensures Distinct(GoIds(FirstOccurrences(xs)))
    ensures forall g :: g in GoIds(FirstOccurrences(xs)) <==> g in GoIds(xs)
  {
    if xs != [] {
      var n := |xs| - 1;
      KeptIds(xs[..n]);
      var init := FirstOccurrences(xs[..n]);
      assert forall g :: g in GoIds(xs) <==> g in GoIds(xs[..n]) || g == xs[n].goId by {
        assert GoIds(xs) == GoIds(xs[..n]) + [xs[n].goId];
      }
      if xs[n].goId !in GoIds(init) {
        assert GoIds(init + [xs[n]]) == GoIds(init) + [xs[n].goId];
      }
    }
  }

  /** The loop keeps the annotations at the first-occurrence positions, in order. */
  lemma {:induction false} KeptAreFirsts(xs: seq<GoAnnotation>)
    ensures var ps := FirstPositions(xs);
      FirstOccurrences(xs) == seq(|ps|, j requires 0 <= j < |ps| => xs[ps[j]])
  {
    if xs != [] {
      var n := |xs| - 1;
      var init := xs[..n];
      KeptAreFirsts(init);
      KeptIds(init);
      var ps, kept := FirstPositions(init), FirstOccurrences(init);
      assert IsFirst(xs, n) <==> xs[n].goId !in GoIds(kept);
      var ps', kept' := FirstPositions(xs), FirstOccurrences(xs);
      if IsFirst(xs, n) {
        assert ps' == ps + [n] && kept' == kept + [xs[n]];
      } else {
        assert ps' == ps && kept' == kept;
      }
      forall j | 0 <= j < |ps'| ensures kept'[j] == xs[ps'[j]] {
        if j < |ps| {
          assert kept'[j] == kept[j] == init[ps[j]];
        }
      }
    }
  }

  /** First-occurrence positions increase, and a position is listed exactly when it
      holds the first occurrence of its identifier. */
  lemma {:induction false} FirstPositionsSpec(xs: seq<GoAnnotation>)
    ensures var ps := FirstPositions(xs);
      && (forall i, j :: 0 <= i < j < |ps| ==> ps[i] < ps[j])
      && (forall i :: 0 <= i < |xs| ==> (i in ps <==> IsFirst(xs, i)))
  {
    if xs != [] {
      var n := |xs| - 1;
      var init := xs[..n];
      FirstPositionsSpec(init);
      forall i | 0 <= i < n ensures IsFirst(xs, i) == IsFirst(init, i) {
        assert xs[..i] == init[..i];
      }
    }
  }

  /** Each kept aspect belongs to the first annotation with the same identifier. */
  lemma AspectOfFirst(xs: seq<GoAnnotation>, j: nat)
    requires j < |FirstOccurrences(xs)|
    ensures exists i ::
      && 0 <= i < |xs| && IsFirst(xs, i)
      && xs[i].goId == GoIds(FirstOccurrences(xs))[j] && xs[i].goAspect == GoAspects(FirstOccurrences(xs))[j]
  {
    KeptAreFirsts(xs);
    FirstPositionsSpec(xs);
    var ps := FirstPositions(xs);
    assert ps[j] in ps;
  }

  // ---------------------------------------------------------------------------
  // Counters

  /** Over distinct terms, a counter is the number of terms shared with the
      reference list. */
  lemma {:induction false} CountIsOverlap(terms: seq<string>, reference: seq<string>)
    requires Distinct(terms)
    ensures CountIn(terms, reference) == |set t | t in terms && t in reference|
  {
    if terms != [] {
      var n := |terms| - 1;
      var init := terms[..n];
      CountIsOverlap(init, reference);
      var before := set t | t in init && t in reference;
      var after := set t | t in terms && t in reference;
      assert terms == init + [terms[n]];
      assert terms[n] !in init;
      if terms[n] in reference {
        assert after == before + {terms[n]};
      } else {
        assert after == before;
      }
    }
  }

  /** The row: the distinct identifiers in first-occurrence order, one aspect per
      identifier, and each counter at most the number of identifiers and equal to
      the overlap with its reference list. */
  lemma GoRowSpec(prot: string, p: GoPayload, refs: GoReferences)
    ensures var row := GoRowOf(prot, p, refs);
      && row.uniqueId == prot
      && Distinct(row.goTerms)
      && (forall g :: g in row.goTerms <==> g in GoIds(p.results))
      && |row.goAspects| == |row.goTerms|
      && row.rnaCount <= |row.goTerms| && row.dnaCount <= |row.goTerms| && row.naCount <= |row.goTerms|
      && row.rnaCount == |set t | t in row.goTerms && t in refs.rna|
      && row.dnaCount == |set t | t in row.goTerms && t in refs.dna|
      && row.naCount == |set t | t in row.goTerms && t in refs.na|
  {
    var terms := GoIds(FirstOccurrences(p.results));
    KeptIds(p.results);
    CountIsOverlap(terms, refs.rna);
    CountIsOverlap(terms, refs.dna);
    CountIsOverlap(terms, refs.na);
  }

  // ---------------------------------------------------------------------------
  // The loop over identifiers

  /** The rows one payload contributes: always exactly one. */
  function GoRows(refs: GoReferences): (string, GoPayload) -> seq<GoRow>
  {
    (prot: string, p: GoPayload) => [GoRowOf(prot, p, refs)]
  }

  /** `annot_GO`: the rows, the failures table and the request log of one call.
      There is no cache: every position is fetched. */
  method AnnotGo(ids: seq<string>, fetch: (string, nat) -> Fetch<GoPayload>, refs: GoReferences)
    returns (rows: seq<GoRow>, failed: seq<Failure>, requests: seq<string>)
    ensures var t := Serve(ids, fetch, false);
      && requests == t.requests
      && failed == Failures(ids, t.served)
      && rows == Collect(ids, t.served, GoRows(refs))
  {
    rows, failed, requests := [], [], [];
    ghost var served: seq<Served<GoPayload>> := [];
    for k := 0 to |ids|
      invariant Serve(ids[..k], fetch, false) == Trace(map[], requests, served)
      invariant failed == Failures(ids[..k], served)
      invariant rows == Collect(ids[..k], served, GoRows(refs))
    {
      var prot := ids[k];
      Advance(ids, k, fetch, false, GoRows(refs));
      var response := fetch(prot, |requests|);
      requests := requests + [prot];
      if response.FetchFailed? {
        failed := failed + [Failure(prot, response.error)];
        served := served + [NotServed(response.error)];
        continue;
      }
      served := served + [FromFetch(response.payload)];
      var row := BuildGoRow(prot, response.payload, refs);
      rows := rows + [row];
    }
    assert ids[..|ids|] == ids;
  }

  /** Every position is fetched, in input order; exactly one row per successful
      position, carrying its identifier; rows and failures account for every position. */
  lemma GoAccounting(ids: seq<string>, fetch: (string, nat) -> Fetch<GoPayload>, refs: GoReferences)
    ensures var t := Serve(ids, fetch, false);
      var rows, ok := Collect(ids, t.served, GoRows(refs)), ServedIds(ids, t.served);
      && t.requests == ids
      && |rows| == |ok|
      && (forall k :: 0 <= k < |rows| ==> rows[k].uniqueId == ok[k])
      && |rows| + |Failures(ids, t.served)| == |ids|
  {
    var t := Serve(ids, fetch, false);
    UncachedFetchesAll(ids, fetch);
    OneRowEach(ids, t.served, GoRows(refs), (r: GoRow) => r.uniqueId);
    EachPositionOnce(ids, t.served);
  }
}
