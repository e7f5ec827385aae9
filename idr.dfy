/** `annot_IDR`: disorder annotations from MobiDB, one row per identifier whose
    download succeeded, holding three `reg_to_list` vectors. */
module Idr {
  import opened Wrappers
  import opened Strings
  import opened Regions
  import opened Pipeline

  /** One annotation block of the payload, such as `curated-disorder-merge`;
      a None field is a key the block lacks. */
  datatype Annotation = Annotation(regions: Option<seq<Region>>, scores: Option<seq<real>>)

  /** `response.json()['data'][0]`: the sequence and the three annotation blocks
      the row is built from, each None when the payload lacks that key. */
  datatype IdrPayload = IdrPayload(
    sequence: string,
    curated: Option<Annotation>,
    mobidbLite: Option<Annotation>,
    alphafold: Option<Annotation>)

  /** One row of the result: `protein_name`, `length`, the vectors of
      `curated-disorder-merge`, `prediction-disorder-mobidb_lite` and
      `prediction-disorder-alphafold`, and `prediction-disorder-alphafold-score`. */
  datatype IdrRow = IdrRow(
    protein: string,
    length: nat,
    curated: seq<int>,
    mobidbLite: seq<int>,
    alphafold: seq<int>,
    alphafoldScores: Option<seq<real>>)

  /** `payload.get(k, {}).get('regions')` */
  function RegionsOf(block: Option<Annotation>): Option<seq<Region>>
  {
    if block.Some? then block.value.regions else None
  }

  /** `payload.get(k, {}).get('scores')` */
  function ScoresOf(block: Option<Annotation>): Option<seq<real>>
  {
    if block.Some? then block.value.scores else None
  }

  /** A block that is missing, or lacks regions, or lists none: `if regions:` fails. */
  predicate NoRegions(block: Option<Annotation>)
  {
    block.None? || block.value.regions.None? || block.value.regions.value == []
  }

  /** The row the source builds from one payload. */
  function IdrRowOf(prot: string, p: IdrPayload): IdrRow
  {
    var n := |p.sequence|;
    IdrRow(
      prot, n,
      RegToListSpec(RegionsOf(p.curated), n),
      RegToListSpec(RegionsOf(p.mobidbLite), n),
      RegToListSpec(RegionsOf(p.alphafold), n),
      ScoresOf(p.alphafold))
  }

  /** The rows one payload contributes: always exactly one. */
  function IdrRows(prot: string, p: IdrPayload): seq<IdrRow>
  {
    [IdrRowOf(prot, p)]
  }

  /** Builds the row, running `reg_to_list` once per annotation block. */
  method BuildIdrRow(prot: string, p: IdrPayload) returns (row: IdrRow)
    ensures row == IdrRowOf(prot, p)
  {
    var n := |p.sequence|;
    var curated := RegToList(RegionsOf(p.curated), n);
    var mobidbLite := RegToList(RegionsOf(p.mobidbLite), n);
    var alphafold := RegToList(RegionsOf(p.alphafold), n);
    row := IdrRow(prot, n, curated, mobidbLite, alphafold, ScoresOf(p.alphafold));
  }

  /** Every vector of a row has one cell per residue, each 0, 1 or -1; a block that
      is missing, or has no or empty regions, gives all zeros; the scores are the
      alphafold block's own. */
  lemma IdrRowShape(prot: string, p: IdrPayload)
    ensures var row := IdrRowOf(prot, p);
      && row.protein == prot && row.length == |p.sequence|
      && |row.curated| == row.length && AllMarks(row.curated)
      && |row.mobidbLite| == row.length && AllMarks(row.mobidbLite)
      && |row.alphafold| == row.length && AllMarks(row.alphafold)
      && (NoRegions(p.curated) ==> row.curated == Fill(0, row.length))
      && (NoRegions(p.mobidbLite) ==> row.mobidbLite == Fill(0, row.length))
      && (NoRegions(p.alphafold) ==> row.alphafold == Fill(0, row.length))
      && (p.alphafold.None? ==> row.alphafoldScores.None?)
      && (p.alphafold.Some? ==> row.alphafoldScores == p.alphafold.value.scores)
  {
    var n := |p.sequence|;
    RegToListShape(RegionsOf(p.curated), n);
    RegToListShape(RegionsOf(p.mobidbLite), n);
    RegToListShape(RegionsOf(p.alphafold), n);
  }

  /** `annot_IDR`: the rows, the failures table and the request log of one call.
      The lookup `prot in cache` tests the identifier against a list of two dicts,
      so it never succeeds and every position is fetched; with `cacheMode` the
      payload is stored in the second dict, which nothing reads. */
  method AnnotIdr(ids: seq<string>, fetch: (string, nat) -> Fetch<IdrPayload>, cacheMode: bool)
    returns (rows: seq<IdrRow>, failed: seq<Failure>, requests: seq<string>)
    ensures var t := Serve(ids, fetch, false);
      && requests == t.requests
      && failed == Failures(ids, t.served)
      && rows == Collect(ids, t.served, IdrRows)
  {
    rows, failed, requests := [], [], [];
    var stored: map<string, IdrPayload> := map[];
    ghost var served: seq<Served<IdrPayload>> := [];
    for k := 0 to |ids|
      invariant Serve(ids[..k], fetch, false) == Trace(map[], requests, served)
      invariant failed == Failures(ids[..k], served)
      invariant rows == Collect(ids[..k], served, IdrRows)
    {
      var prot := ids[k];
      Advance(ids, k, fetch, false, IdrRows);
      var response := fetch(prot, |requests|);
      requests := requests + [prot];
      if response.FetchFailed? {
        failed := failed + [Failure(prot, response.error)];
        served := served + [NotServed(response.error)];
        continue;
      }
      var payload := response.payload;
      if cacheMode {
        stored := stored[prot := payload];
      }
      served := served + [FromFetch(payload)];
      var row := BuildIdrRow(prot, payload);
      rows := rows + [row];
    }
    assert ids[..|ids|] == ids;
  }

  /** Every occurrence of an identifier is fetched, in input order; the rows are one
      per successful position, carrying its identifier, and with the failures they
      account for every position. */
  lemma IdrAccounting(ids: seq<string>, fetch: (string, nat) -> Fetch<IdrPayload>)
    ensures var t := Serve(ids, fetch, false);
      var rows, ok := Collect(ids, t.served, IdrRows), ServedIds(ids, t.served);
      && t.requests == ids
      && |rows| == |ok|
      && (forall k :: 0 <= k < |rows| ==> rows[k].protein == ok[k])
      && |rows| + |Failures(ids, t.served)| == |ids|
  {
    var t := Serve(ids, fetch, false);
    UncachedFetchesAll(ids, fetch);
    OneRowEach(ids, t.served, IdrRows, (r: IdrRow) => r.protein);
    EachPositionOnce(ids, t.served);
  }
}
