/** `annot_domains`: InterPro domain entries matched on each protein, one row per
    domain entry that has a located match. */
module Domains {
  import opened Wrappers
  import opened Pipeline

  /** An entry of `metadata['go_terms']`. */
  datatype GoTerm = GoTerm(identifier: string, name: string)

  /** The first fragment of the first location, the part of the row it supplies:
      `start`, `end` and `dc-status`. */
  datatype Fragment = Fragment(start: int, end: int, dcStatus: string)

  /** An entry of `entry_protein_locations`. */
  datatype Location = Location(fragments: seq<Fragment>)

  /** An entry of `proteins`; `locations` is None when `entry_protein_locations` is null. */
  datatype ProteinMatch = ProteinMatch(locations: Option<seq<Location>>)

  /** One entry of `payload['results']`: its metadata (type, the keys of
      `member_databases`, accession, name, GO terms or None when null) and the
      proteins it matches. */
  datatype Entry = Entry(
    entryType: string,
    memberDatabases: seq<string>,
    accession: string,
    name: string,
    goTerms: Option<seq<GoTerm>>,
    proteins: seq<ProteinMatch>)

  datatype DomainPayload = DomainPayload(results: seq<Entry>)

  /** One row of the result: `protein_name`, `databases`, `accession`, `name`,
      `GO_identifiers`, `GO_names` and the fragment's keys. */
  datatype DomainRow = DomainRow(
    protein: string,
    databases: seq<string>,
    accession: string,
    name: string,
    goIdentifiers: seq<string>,
    goNames: seq<string>,
    fragment: Fragment)

  /** What one entry does: nothing, one row, or an uncaught IndexError (an empty
      `proteins`, `entry_protein_locations` or `fragments` list). */
  datatype EntryOutcome = Skipped | Emits(row: DomainRow) | Raises

  /** `GO_identifiers`: filled only when `go_terms` is truthy. */
  function GoIdentifiers(terms: Option<seq<GoTerm>>): seq<string>
  {
    if terms.None? then [] else seq(|terms.value|, k requires 0 <= k < |terms.value| => terms.value[k].identifier)
  }

  /** `GO_names`, built in the same loop as `GO_identifiers`. */
  function GoNames(terms: Option<seq<GoTerm>>): seq<string>
  {
    if terms.None? then [] else seq(|terms.value|, k requires 0 <= k < |terms.value| => terms.value[k].name)
  }

  /** The body of the loop over `payload['results']` for one entry. */
  function EntryOutcomeOf(prot: string, el: Entry): EntryOutcome
  {
    if el.entryType != "domain" then Skipped
    else if el.proteins == [] then Raises
    else
      match el.proteins[0].locations
      case None => Skipped
      case Some(locations) =>
        if locations == [] || locations[0].fragments == [] then Raises
        else
          Emits(DomainRow(
            prot, el.memberDatabases, el.accession, el.name,
            GoIdentifiers(el.goTerms), GoNames(el.goTerms),
            locations[0].fragments[0]))
  }

  /** The rows of one payload, in entry order, or None when an entry raises. */
  function DomainRows(prot: string, entries: seq<Entry>): (r: Option<seq<DomainRow>>)
    ensures r.Some? ==> |r.value| <= |entries|
  {
    if entries == [] then Some([])
    else
      var n := |entries| - 1;
      match DomainRows(prot, entries[..n])
      case None => None
      case Some(rows) =>
        match EntryOutcomeOf(prot, entries[n])
        case Raises => None
        case Skipped => Some(rows)
        case Emits(row) => Some(rows + [row])
  }

  /** The loop over `payload['results']`, stopping at the first entry that raises. */
  method FlattenDomains(prot: string, payload: DomainPayload) returns (rows: Option<seq<DomainRow>>)
    ensures rows == DomainRows(prot, payload.results)
  {
    var entries := payload.results;
    var found: seq<DomainRow> := [];
    for k := 0 to |entries|
      invariant DomainRows(prot, entries[..k]) == Some(found)
    {
      assert entries[..k + 1][..k] == entries[..k];
      match EntryOutcomeOf(prot, entries[k]) {
        case Raises =>
          DomainRowsRaiseStays(prot, entries, k + 1);
          return None;
        case Skipped =>
        case Emits(row) => found := found + [row];
      }
    }
    assert entries[..|entries|] == entries;
    return Some(found);
  }

  /** Once a prefix raises, every longer prefix raises. */
  lemma {:induction false} DomainRowsRaiseStays(prot: string, entries: seq<Entry>, k: nat)
    requires k <= |entries| && DomainRows(prot, entries[..k]).None?
    ensures DomainRows(prot, entries).None?
    decreases |entries| - k
  {
    if k < |entries| {
      var next := entries[..k + 1];
      assert next[..k] == entries[..k];
      DomainRowsRaiseStays(prot, entries, k + 1);
    } else {
      assert entries[..k] == entries;
    }
  }

  // ---------------------------------------------------------------------------
  // One entry

  /** An entry yields a row exactly when it is a domain whose first protein has a
      non-null location list with a first fragment. */
  lemma EmitsExactly(prot: string, el: Entry)
    ensures EntryOutcomeOf(prot, el).Emits? <==>
      && el.entryType == "domain"
      && el.proteins != []
      && el.proteins[0].locations.Some?
      && el.proteins[0].locations.value != []
      && el.proteins[0].locations.value[0].fragments != []
  {
  }

  /** An entry raises exactly when it is a domain and one of the three lists indexed
      at 0 is empty; an entry of another type never raises. */
  lemma RaisesExactly(prot: string, el: Entry)
    ensures EntryOutcomeOf(prot, el).Raises? <==>
      && el.entryType == "domain"
      && (|| el.proteins == []
          || (&& el.proteins[0].locations.Some?
              && (el.proteins[0].locations.value == []
                  || el.proteins[0].locations.value[0].fragments == [])))
  {
  }

  /** A row carries the protein, the entry's metadata, parallel GO lists (empty when
      `go_terms` is null or empty, otherwise one identifier and one name per term,
      position by position) and the first fragment of the first location. */
  lemma RowFields(prot: string, el: Entry)
    requires EntryOutcomeOf(prot, el).Emits?
    ensures var row := EntryOutcomeOf(prot, el).row;
      && row.protein == prot
      && row.databases == el.memberDatabases
      && row.accession == el.accession && row.name == el.name
      && |row.goIdentifiers| == |row.goNames|
      && (el.goTerms.None? || el.goTerms.value == [] ==> row.goIdentifiers == [] && row.goNames == [])
      && (el.goTerms.Some? ==>
            |row.goIdentifiers| == |el.goTerms.value|
            && forall k :: 0 <= k < |el.goTerms.value| ==>
                 row.goIdentifiers[k] == el.goTerms.value[k].identifier
                 && row.goNames[k] == el.goTerms.value[k].name)
      && row.fragment == el.proteins[0].locations.value[0].fragments[0]
  {
  }

  // ---------------------------------------------------------------------------
  // A whole payload

  /** The rows of an entry as a list: one for `Emits`, none otherwise. */
  function RowOf(prot: string): Entry -> Option<DomainRow>
  {
    el => if EntryOutcomeOf(prot, el).Emits? then Some(EntryOutcomeOf(prot, el).row) else None
  }

  /** A payload raises exactly when one of its entries raises; otherwise its rows are
      those of the emitting entries, in entry order. */
  lemma {:induction false} DomainRowsSpec(prot: string, entries: seq<Entry>)
    ensures DomainRows(prot, entries).None? <==>
      exists k :: 0 <= k < |entries| && EntryOutcomeOf(prot, entries[k]).Raises?
    ensures DomainRows(prot, entries).Some? ==>
      DomainRows(prot, entries).value == FilterMap(RowOf(prot), entries)
  {
    if entries != [] {
      var n := |entries| - 1;
      var init := entries[..n];
      DomainRowsSpec(prot, init);
      if exists k :: 0 <= k < |init| && EntryOutcomeOf(prot, init[k]).Raises? {
        var k :| 0 <= k < |init| && EntryOutcomeOf(prot, init[k]).Raises?;
        assert entries[k] == init[k];
      }
      if exists k :: 0 <= k < |entries| && EntryOutcomeOf(prot, entries[k]).Raises? {
        var k :| 0 <= k < |entries| && EntryOutcomeOf(prot, entries[k]).Raises?;
        if k < n {
          assert init[k] == entries[k];
        }
      }
    }
  }

  /** Rows of a payload split at any entry are the rows of both parts, in order. */
  lemma DomainRowsAppend(prot: string, xs: seq<Entry>, ys: seq<Entry>)
    requires DomainRows(prot, xs + ys).Some?
    ensures DomainRows(prot, xs).Some? && DomainRows(prot, ys).Some?
    ensures DomainRows(prot, xs + ys).value == DomainRows(prot, xs).value + DomainRows(prot, ys).value
  {
    DomainRowsSpec(prot, xs + ys);
    DomainRowsSpec(prot, xs);
    DomainRowsSpec(prot, ys);
    forall k | 0 <= k < |xs| ensures !EntryOutcomeOf(prot, xs[k]).Raises? {
      assert (xs + ys)[k] == xs[k];
    }
    forall k | 0 <= k < |ys| ensures !EntryOutcomeOf(prot, ys[k]).Raises? {
      assert (xs + ys)[|xs| + k] == ys[k];
    }
    FilterMapAppend(RowOf(prot), xs, ys);
  }

  // ---------------------------------------------------------------------------
  // The loop over identifiers

  /** How a call ends: with the results and failures tables, or with the IndexError
      raised while flattening the payload at `position` (of identifier `protein`). */
  datatype DomainsResult =
    | Completed(rows: seq<DomainRow>, failed: seq<Failure>)
    | Raised(protein: string, position: nat)

  /** The outcome of the loop over the positions served as in `served`. */
  function DomainsOutcome(ids: seq<string>, served: seq<Served<DomainPayload>>): (r: DomainsResult)
    requires |ids| == |served|
    ensures r.Raised? ==> r.position < |ids| && r.protein == ids[r.position]
  {
    if ids == [] then Completed([], [])
    else
      var n := |ids| - 1;
      var prev := DomainsOutcome(ids[..n], served[..n]);
      if prev.Raised? then prev
      else
        match served[n]
        case NotServed(e) => Completed(prev.rows, prev.failed + [Failure(ids[n], e)])
        case FromCache(p) => Extend(prev, ids[n], n, p)
        case FromFetch(p) => Extend(prev, ids[n], n, p)
  }

  /** Adds the rows of one payload, or ends with its IndexError. */
  function Extend(prev: DomainsResult, prot: string, position: nat, p: DomainPayload): (r: DomainsResult)
    requires prev.Completed?
    ensures r.Raised? ==> r.position == position && r.protein == prot
  {
    match DomainRows(prot, p.results)
    case None => Raised(prot, position)
    case Some(rows) => Completed(prev.rows + rows, prev.failed)
  }

  /** How many positions the loop gets through. */
  function Processed(ids: seq<string>, result: DomainsResult): nat
  {
    if result.Raised? && result.position < |ids| then result.position + 1 else |ids|
  }

  /** `annot_domains`: the outcome and the request log of one call, with a cache of
      successful responses. */
  method AnnotDomains(ids: seq<string>, fetch: (string, nat) -> Fetch<DomainPayload>)
    returns (result: DomainsResult, requests: seq<string>)
    ensures var t := Serve(ids, fetch, true);
      && result == DomainsOutcome(ids, t.served)
      && requests == Serve(ids[..Processed(ids, result)], fetch, true).requests
  {
    var rows: seq<DomainRow> := [];
    var failed: seq<Failure> := [];
    requests := [];
    var cache: map<string, DomainPayload> := map[];
    ghost var served: seq<Served<DomainPayload>> := [];
    for k := 0 to |ids|
      invariant Serve(ids[..k], fetch, true) == Trace(cache, requests, served)
      invariant DomainsOutcome(ids[..k], served) == Completed(rows, failed)
    {
      var prot := ids[k];
      Advance(ids, k, fetch, true, RowsOrNone);
      var outcome;
      ghost var before := served;
      outcome, cache, requests := ServeCached(prot, fetch, cache, requests, served);
      served := served + [outcome];
      OutcomeNext(ids, k, before, outcome, rows, failed);
      if outcome.NotServed? {
        failed := failed + [Failure(prot, outcome.error)];
        continue;
      }
      var found := FlattenDomains(prot, outcome.payload);
      if found.None? {
        result := Raised(prot, k);
        RaisedAt(ids, fetch, k);
        assert Processed(ids, result) == k + 1;
        return;
      }
      rows := rows + found.value;
    }
    assert ids[..|ids|] == ids;
    result := Completed(rows, failed);
    assert Processed(ids, result) == |ids|;
  }

  /** The outcome after one more position, from a completed outcome before it. */
  lemma OutcomeNext(ids: seq<string>, k: nat, before: seq<Served<DomainPayload>>, x: Served<DomainPayload>,
                    rows: seq<DomainRow>, failed: seq<Failure>)
    requires k < |ids| && |before| == k
    requires DomainsOutcome(ids[..k], before) == Completed(rows, failed)
    ensures DomainsOutcome(ids[..k + 1], before + [x]) ==
      if x.NotServed? then Completed(rows, failed + [Failure(ids[k], x.error)])
      else Extend(Completed(rows, failed), ids[k], k, x.payload)
  {
    assert ids[..k + 1][..k] == ids[..k];
    assert (before + [x])[..k] == before;
  }

  /** A payload that raises at position `k` ends the whole call there. */
  lemma RaisedAt(ids: seq<string>, fetch: (string, nat) -> Fetch<DomainPayload>, k: nat)
    requires k < |ids|
    requires DomainsOutcome(ids[..k + 1], Serve(ids[..k + 1], fetch, true).served) == Raised(ids[k], k)
    ensures DomainsOutcome(ids, Serve(ids, fetch, true).served) == Raised(ids[k], k)
  {
    var all := Serve(ids, fetch, true).served;
    ServePrefix(ids, fetch, true, k + 1);
    OutcomeStaysRaised(ids, all, k + 1);
  }

  /** Once the loop has raised on a prefix, it has raised with the same outcome on
      the whole input. */
  lemma {:induction false} OutcomeStaysRaised(ids: seq<string>, served: seq<Served<DomainPayload>>, k: nat)
    requires |ids| == |served| && k <= |ids|
    requires DomainsOutcome(ids[..k], served[..k]).Raised?
    ensures DomainsOutcome(ids, served) == DomainsOutcome(ids[..k], served[..k])
    decreases |ids| - k
  {
    if k < |ids| {
      assert ids[..k + 1][..k] == ids[..k] && served[..k + 1][..k] == served[..k];
      OutcomeStaysRaised(ids, served, k + 1);
    } else {
      assert ids[..k] == ids && served[..k] == served;
    }
  }

  /** The rows of a payload, empty when it raises (used only where none raises). */
  function RowsOrNone(prot: string, p: DomainPayload): seq<DomainRow>
  {
    if DomainRows(prot, p.results).Some? then DomainRows(prot, p.results).value else []
  }

  /** When no served payload raises, the call completes with the shared accounting:
      the failures table of the loop and the rows of each served payload, in order. */
  lemma {:induction false} CompletesWithAccounting(ids: seq<string>, served: seq<Served<DomainPayload>>)
    requires |ids| == |served|
    requires forall k :: 0 <= k < |ids| && served[k].Succeeded() ==>
      DomainRows(ids[k], served[k].payload.results).Some?
    ensures DomainsOutcome(ids, served) == Completed(Collect(ids, served, RowsOrNone), Failures(ids, served))
  {
    if ids != [] {
      var n := |ids| - 1;
      CompletesWithAccounting(ids[..n], served[..n]);
    }
  }
}
