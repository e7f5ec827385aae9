/** `annot_PTMs`: post-translational modification sites from the UniProt features
    service, one row per feature that carries evidence. */
module Ptm {
  import opened Wrappers
  import opened Strings
  import opened Pipeline

  /** An entry of a feature's `evidences` list (only its count is used). */
  datatype Evidence = Evidence(code: string)

  /** One entry of `payload['features']`; a None field is a key the entry lacks
      (for `description`, also a value that is not a string). */
  datatype Feature = Feature(
    featureType: Option<string>,
    description: Option<string>,
    begin: Option<string>,
    evidences: Option<seq<Evidence>>)

  /** The decoded response: the protein's sequence and its PTM features. */
  datatype PtmPayload = PtmPayload(sequence: string, features: seq<Feature>)

  /** One row of the result: `protein_name`, `length`, `num_evidences`, `type`,
      `description`, `pos`, `AA`, `ptm`, `by`. */
  datatype PtmRow = PtmRow(
    protein: string,
    length: nat,
    numEvidences: nat,
    featureType: string,
    description: string,
    pos: string,
    residue: char,
    ptm: string,
    agents: seq<string>)

  /** The modification named by a description and the agents it is attributed to. */
  datatype Modification = Modification(name: string, agents: seq<string>)

  /** The agent text of a description segment: " and" becomes "," and "by " is dropped. */
  function AgentText(segment: string): string
  {
    Replace(Replace(segment, " and", ","), "by ", "")
  }

  /** `[x.strip() for x in xs]` */
  function StripEach(xs: seq<string>): (r: seq<string>)
    ensures |r| == |xs| && forall k :: 0 <= k < |xs| ==> r[k] == Strip(xs[k])
  {
    seq(|xs|, k requires 0 <= k < |xs| => Strip(xs[k]))
  }

  /** The `ptm` and `by` fields of a row, parsed from its description. */
  function ParseDescription(d: string): Modification
  {
    var parts := Split(d, ';');
    Modification(
      parts[0],
      if |parts| > 1 && Contains(parts[1], "by") then StripEach(Split(AgentText(parts[1]), ',')) else [])
  }

  /** The name is the text before the first `;` (all of it when there is none). */
  lemma DescriptionName(d: string)
    ensures var name := ParseDescription(d).name;
      && ';' !in name
      && |name| <= |d| && name == d[..|name|]
      && (|name| < |d| ==> d[|name|] == ';')
  {
    SplitHead(d, ';');
    SplitSpec(d, ';');
  }

  /** The agents are listed only when a second `;`-segment exists and mentions "by";
      each agent is stripped and holds no comma. */
  lemma DescriptionAgents(d: string)
    ensures var parts, agents := Split(d, ';'), ParseDescription(d).agents;
      && (agents != [] ==> |parts| > 1 && Contains(parts[1], "by"))
      && (|parts| > 1 && Contains(parts[1], "by") ==> agents != [])
      && forall k :: 0 <= k < |agents| ==> ',' !in agents[k] && Strip(agents[k]) == agents[k]
  {
    var parts, agents := Split(d, ';'), ParseDescription(d).agents;
    if |parts| > 1 && Contains(parts[1], "by") {
      var pieces := Split(AgentText(parts[1]), ',');
      SplitSpec(AgentText(parts[1]), ',');
      forall k | 0 <= k < |agents| ensures ',' !in agents[k] && Strip(agents[k]) == agents[k] {
        StripIdempotent(pieces[k]);
        StripSpec(pieces[k]);
        assert ',' !in pieces[k];
        assert forall c :: c in agents[k] ==> c in pieces[k];
      }
    }
  }

  /** An enzyme name as UniProt writes it in a description: upper-case letters
      and digits, such as PKA or CK2. */
  predicate AgentName(w: string)
  {
    w != [] && forall k :: 0 <= k < |w| ==> 'A' <= w[k] <= 'Z' || '0' <= w[k] <= '9'
  }

  /** "<name>; by <A> and <B>" names the modification and lists the two enzymes. */
  lemma DescriptionWithTwoAgents(name: string, a: string, b: string)
    requires ';' !in name && AgentName(a) && AgentName(b)
    ensures ParseDescription(name + "; by " + a + " and " + b) == Modification(name, [a, b])
  {
    var segment := " by " + a + " and " + b;
    assert name + "; by " + a + " and " + b == name + [';'] + segment;
    assert ';' !in segment by {
      assert forall k :: 0 <= k < |segment| ==> segment[k] != ';' by {
        forall k | 0 <= k < |segment| ensures segment[k] != ';' {
          if 4 <= k < 4 + |a| { assert segment[k] == a[k - 4]; }
          else if 9 + |a| <= k { assert segment[k] == b[k - 9 - |a|]; }
        }
      }
    }
    SplitPair(name, segment, ';');
    assert segment[1..3] == "by";
    ContainsAt(segment, "by", 1);
    AgentTextPair(a, b);
    AgentsOfPair(a, b);
  }

  /** The description of a phosphoserine added by two kinases. */
  lemma ExampleDescription(d: string)
    requires d == "Phosphoserine; by PKA and PKC"
    ensures ParseDescription(d) == Modification("Phosphoserine", ["PKA", "PKC"])
  {
    assert AgentName("PKA") && AgentName("PKC");
    DescriptionWithTwoAgents("Phosphoserine", "PKA", "PKC");
    assert d == "Phosphoserine" + "; by " + "PKA" + " and " + "PKC";
  }

  /** The connectives are removed and the enzyme names kept. */
  lemma AgentTextPair(a: string, b: string)
    requires AgentName(a) && AgentName(b)
    ensures AgentText(" by " + a + " and " + b) == " " + a + ", " + b
  {
    AndBecomesComma(a, b);
    ByDropped(a, b);
  }

  lemma AndBecomesComma(a: string, b: string)
    requires AgentName(a) && AgentName(b)
    ensures Replace(" by " + a + " and " + b, " and", ",") == " by " + a + ", " + b
  {
    var x, y := " by " + a, " " + b;
    NoAndAfterBy(a);
    assert x + " and"[..3] == " by " + a + " an";
    ReplaceFirst(x, " and", ",", y);
    NoAndAfterSpace(b);
    ReplaceAbsent(y, " and", ",");
    assert " by " + a + " and " + b == x + " and" + y;
    assert x + "," + y == " by " + a + ", " + b;
  }

  /** " and" does not occur before the one that follows the first agent. */
  lemma NoAndAfterBy(a: string)
    requires AgentName(a)
    ensures !Contains(" by " + a + " an", " and")
  {
    var s := " by " + a + " an";
    forall k | 0 <= k < |s| ensures s[k] != 'd' {
      if 4 <= k < 4 + |a| { assert s[k] == a[k - 4]; }
    }
    AbsentChar(s, " and", 'd');
  }

  /** " and" does not occur in the text after it. */
  lemma NoAndAfterSpace(b: string)
    requires AgentName(b)
    ensures !Contains(" " + b, " and")
  {
    var y := " " + b;
    forall k | 0 <= k < |y| ensures y[k] != 'a' {
      if 1 <= k { assert y[k] == b[k - 1]; }
    }
    AbsentChar(y, " and", 'a');
  }

  lemma ByDropped(a: string, b: string)
    requires AgentName(a) && AgentName(b)
    ensures Replace(" by " + a + ", " + b, "by ", "") == " " + a + ", " + b
  {
    var z := a + ", " + b;
    calc {
      Replace(" by " + a + ", " + b, "by ", "");
    == { assert " by " + a + ", " + b == " " + "by " + z; }
      Replace(" " + "by " + z, "by ", "");
    == { NoLowerB(a, b); LeadingByDropped(z); }
      " " + z;
    == { Assoc(" ", a + ", ", b); Assoc(a, ", ", b); Assoc(" ", a, ", "); }
      " " + a + ", " + b;
    }
  }

  /** Agent names are upper case, so the pair holds no 'b'. */
  lemma NoLowerB(a: string, b: string)
    requires AgentName(a) && AgentName(b)
    ensures 'b' !in a + ", " + b
  {
    var z := a + ", " + b;
    forall k | 0 <= k < |z| ensures z[k] != 'b' {
      if k < |a| { assert z[k] == a[k]; }
      else if |a| + 2 <= k { assert z[k] == b[k - |a| - 2]; }
    }
  }

  /** The "by " right after the leading space is the only occurrence. */
  lemma LeadingByDropped(z: string)
    requires 'b' !in z
    ensures Replace(" " + "by " + z, "by ", "") == " " + z
  {
    assert !Contains(" by", "by ") by {
      assert " by"[..3][0] != "by "[0];
      assert |" by"[1..]| < |"by "|;
    }
    assert " " + "by "[..2] == " by";
    ReplaceFirst(" ", "by ", "", z);
    AbsentChar(z, "by ", 'b');
    ReplaceAbsent(z, "by ", "");
  }

  /** Splitting " <A>, <B>" at the comma and stripping gives the two names. */
  lemma AgentsOfPair(a: string, b: string)
    requires AgentName(a) && AgentName(b)
    ensures StripEach(Split(" " + a + ", " + b, ',')) == [a, b]
  {
    var sa, sb := [' '] + a, [' '] + b;
    assert ',' !in sa by {
      forall k | 0 <= k < |sa| ensures sa[k] != ',' {
        if 1 <= k { assert sa[k] == a[k - 1]; }
      }
    }
    SplitPair(sa, sb, ',');
    assert " " + a + ", " + b == sa + [','] + sb;
    StripWord(a);
    StripWord(b);
    var r := StripEach([sa, sb]);
    assert |r| == 2 && r[0] == a && r[1] == b;
  }

  /** The feature has every key the row needs. */
  predicate Complete(f: Feature)
  {
    f.evidences.Some? && f.featureType.Some? && f.description.Some? && f.begin.Some?
  }

  /** The row for one feature, or None: a feature without `evidences` is skipped, and
      a missing key, a `begin` that `int` rejects or a residue lookup
      `sequence[int(begin) - 1]` outside the sequence raises inside the handler, which
      drops the feature. */
  function FeatureRow(prot: string, sequence: string, f: Feature): (r: Option<PtmRow>)
    ensures f.evidences.None? ==> r.None?
    ensures r.Some? <==> Complete(f) && ParseInt(f.begin.value).Some?
                         && 1 - |sequence| <= ParseInt(f.begin.value).value <= |sequence|
    ensures r.Some? ==>
      var b := ParseInt(f.begin.value).value;
      && r.value.protein == prot
      && r.value.length == |sequence|
      && r.value.numEvidences == |f.evidences.value|
      && r.value.featureType == f.featureType.value
      && r.value.description == f.description.value
      && r.value.pos == f.begin.value
      && r.value.residue == sequence[if b >= 1 then b - 1 else |sequence| + b - 1]
      && r.value.ptm == ParseDescription(f.description.value).name
      && r.value.agents == ParseDescription(f.description.value).agents
  {
    if f.evidences.None? then None
    else if f.featureType.None? || f.description.None? || f.begin.None? then None
    else match ParseInt(f.begin.value)
      case None => None
      case Some(b) =>
        match ResolveIndex(b - 1, |sequence|)
        case None => None
        case Some(at) =>
          var m := ParseDescription(f.description.value);
          Some(PtmRow(prot, |sequence|, |f.evidences.value|, f.featureType.value,
                      f.description.value, f.begin.value, sequence[at], m.name, m.agents))
  }

  /** The rows for a list of features, in feature order. */
  function FeatureRows(prot: string, sequence: string, features: seq<Feature>): (rows: seq<PtmRow>)
  {
    FilterMap(f => FeatureRow(prot, sequence, f), features)
  }

  /** Every row names the identifier and carries the length of the whole sequence. */
  lemma {:induction false} FeatureRowsFields(prot: string, sequence: string, features: seq<Feature>)
    ensures var rows := FeatureRows(prot, sequence, features);
      forall k :: 0 <= k < |rows| ==> rows[k].protein == prot && rows[k].length == |sequence|
  {
    if features != [] {
      var n := |features| - 1;
      FeatureRowsFields(prot, sequence, features[..n]);
      assert FeatureRows(prot, sequence, features)
        == FeatureRows(prot, sequence, features[..n]) + Kept(f => FeatureRow(prot, sequence, f), features[n]);
    }
  }

  /** The rows flattened from one payload. */
  function PtmRows(prot: string, payload: PtmPayload): seq<PtmRow>
  {
    FeatureRows(prot, payload.sequence, payload.features)
  }

  /** Flattening keeps feature order: the rows of two runs of features are the rows
      of the first run followed by those of the second. */
  lemma FeatureRowsAppend(prot: string, sequence: string, fs: seq<Feature>, gs: seq<Feature>)
    ensures FeatureRows(prot, sequence, fs + gs) == FeatureRows(prot, sequence, fs) + FeatureRows(prot, sequence, gs)
  {
    FilterMapAppend(f => FeatureRow(prot, sequence, f), fs, gs);
  }

  /** Position 0 is not an error: it reads the last residue. */
  lemma BeginZeroReadsLast(prot: string, sequence: string, f: Feature)
    requires Complete(f) && ParseInt(f.begin.value) == Some(0) && sequence != []
    ensures FeatureRow(prot, sequence, f).Some?
    ensures FeatureRow(prot, sequence, f).value.residue == sequence[|sequence| - 1]
  {
  }

  /** A position past the end of the sequence drops the feature. */
  lemma BeginPastEndDropped(prot: string, sequence: string, f: Feature)
    requires f.begin.Some? && ParseInt(f.begin.value).Some? && ParseInt(f.begin.value).value > |sequence|
    ensures FeatureRow(prot, sequence, f).None?
  {
  }

  /** The loop over `payload['features']`. */
  method FlattenFeatures(prot: string, payload: PtmPayload) returns (rows: seq<PtmRow>)
    ensures rows == PtmRows(prot, payload)
  {
    var features := payload.features;
    rows := [];
    for k := 0 to |features|
      invariant rows == FeatureRows(prot, payload.sequence, features[..k])
    {
      assert features[..k + 1][..k] == features[..k];
      match FeatureRow(prot, payload.sequence, features[k]) {
        case Some(row) => rows := rows + [row];
        case None =>
      }
    }
    assert features[..|features|] == features;
  }

  /** `annot_PTMs` for the source "uniprot": the rows, the failures table and the
      request log of one call, with a cache of successful responses. */
  method AnnotPtms(ids: seq<string>, fetch: (string, nat) -> Fetch<PtmPayload>)
    returns (rows: seq<PtmRow>, failed: seq<Failure>, requests: seq<string>)
    ensures var t := Serve(ids, fetch, true);
      && requests == t.requests
      && failed == Failures(ids, t.served)
      && rows == Collect(ids, t.served, PtmRows)
  {
    rows, failed, requests := [], [], [];
    var cache: map<string, PtmPayload> := map[];
    ghost var served: seq<Served<PtmPayload>> := [];
    for k := 0 to |ids|
      invariant Serve(ids[..k], fetch, true) == Trace(cache, requests, served)
      invariant failed == Failures(ids[..k], served)
      invariant rows == Collect(ids[..k], served, PtmRows)
    {
      var prot := ids[k];
      Advance(ids, k, fetch, true, PtmRows);
      var outcome;
      outcome, cache, requests := ServeCached(prot, fetch, cache, requests, served);
      served := served + [outcome];
      if outcome.NotServed? {
        failed := failed + [Failure(prot, outcome.error)];
        continue;
      }
      var found := FlattenFeatures(prot, outcome.payload);
      rows := rows + found;
    }
    assert ids[..|ids|] == ids;
  }

  /** Two identifiers, the first timing out and the second answered with one PTM
      (whatever its description): one failure (the first) and one row (from the
      second). */
  lemma ExampleTimeoutAndSuccess(fetch: (string, nat) -> Fetch<PtmPayload>, feature: Feature, d: string)
    requires feature == Feature(Some("MOD_RES"), Some(d), Some("2"), Some([Evidence("ECO:0000269")]))
    requires fetch("P1", 0) == FetchFailed("timeout") && fetch("P2", 1) == Fetched(PtmPayload("MSK", [feature]))
    ensures var t := Serve(["P1", "P2"], fetch, true);
      && Failures(["P1", "P2"], t.served) == [Failure("P1", "timeout")]
      && |Collect(["P1", "P2"], t.served, PtmRows)| == 1
      && Collect(["P1", "P2"], t.served, PtmRows)[0].residue == 'S'
  {
    var ids := ["P1", "P2"];
    var payload := PtmPayload("MSK", [feature]);
    ExampleServed(fetch, payload);
    var served := [NotServed("timeout"), FromFetch(payload)];
    var first, firstServed := ids[..1], served[..1];
    assert first[..0] == [] && firstServed[..0] == [];
    assert Collect(first, firstServed, PtmRows) == [];
    assert Failures(first, firstServed) == [Failure("P1", "timeout")];
    assert Collect(ids, served, PtmRows) == PtmRows("P2", payload);
    assert Failures(ids, served) == [Failure("P1", "timeout")];
    ExampleSerineRow(feature, d);
    FilterMapSingle(f => FeatureRow("P2", "MSK", f), feature);
  }

  /** The first identifier fails and is not cached; the second is fetched. */
  lemma ExampleServed(fetch: (string, nat) -> Fetch<PtmPayload>, payload: PtmPayload)
    requires fetch("P1", 0) == FetchFailed("timeout") && fetch("P2", 1) == Fetched(payload)
    ensures Serve(["P1", "P2"], fetch, true).served == [NotServed("timeout"), FromFetch(payload)]
  {
    var ids := ["P1", "P2"];
    Advance(ids, 0, fetch, true, PtmRows);
    Advance(ids, 1, fetch, true, PtmRows);
    assert ids[..0] == [] && ids[..2] == ids;
  }

  /** A phosphoserine at position 2 of "MSK" reads residue 'S'. */
  lemma ExampleSerineRow(feature: Feature, d: string)
    requires feature == Feature(Some("MOD_RES"), Some(d), Some("2"), Some([Evidence("ECO:0000269")]))
    ensures FeatureRow("P2", "MSK", feature).Some?
    ensures FeatureRow("P2", "MSK", feature).value.residue == 'S'
  {
    ParseDecimal(2);
    assert Decimal(2) == "2";
  }
}
