# Protein feature annotation, verified model

`feature_annotations.py` annotates lists of UniProt identifiers with data from four
web services and returns one table of rows plus one table of failed identifiers:

- `annot_PTMs`: post-translational modification sites from the UniProt features service;
- `annot_IDR`: disorder regions from MobiDB, turned into per-residue vectors by `reg_to_list`;
- `annot_domains`: InterPro domain entries;
- `annot_GO`: Gene Ontology terms from QuickGO, deduplicated and counted against three
  reference lists.

This project models the part of that code that does not depend on the network. That is
how a decoded payload becomes rows, and how the per-identifier loop fetches, caches and
accounts for every position. JSON payloads are Dafny datatypes. A value the code reads with
`[...]` or `.get(...)` that may be absent or null is an `Option`; where the code treats
the two alike, one None stands for both.

The web service is an oracle `fetch(prot, n)`. It gives the answer to the request for
`prot` issued after `n` earlier requests of the same call, either a payload or an error
text. Asking again for an identifier that failed may therefore succeed.

Files (one module each):

- `wrappers.dfy` (`Wrappers`): `Option` and the "convert and keep what converts" walk.
- `strings.dfy` (`Strings`): the Python string operations the code relies on, each with
  Python's semantics. These are `split` on one character, `replace`, the substring test
  `in`, `strip`, `int` on a decimal string, and negative list indices.
- `regions.dfy` (`Regions`): `reg_to_list`, as a method filling an `array<int>` in place.
  It is proved equal to a function of the regions.
- `pipeline.dfy` (`Pipeline`): the per-identifier loop as a trace of functions (`Serve`).
  It also holds the proofs about the cache and about accounting.
- `ptm.dfy` (`Ptm`), `idr.dfy` (`Idr`), `domains.dfy` (`Domains`), `go.dfy` (`GeneOntology`):
  the four annotation functions. Each has its payload types, its flattening, and its loop
  as a method proved to follow `Serve`.

Properties proved, among others:

- `reg_to_list` always returns `length` cells, each 0, 1 or -1.
- With regions inside the sequence, a cell is 1 exactly when a region covers it.
- An out-of-range index resets the list to all -1, and the loops carry on.
- A PTM description parses into the text before the first `;` and the stripped agents.
- Features without evidence, or whose residue lookup raises, are dropped, and feature
  order is kept.
- A GO row has distinct terms in first-occurrence order, one aspect each, and three
  counters equal to the overlap with the reference lists.
- A domain row is emitted only for `domain` entries with located matches, and carries
  parallel GO lists.
- With the cache, an identifier fetched successfully is never requested again, while a
  failed one is.
- The IDR lookup never hits, so every position is fetched.
- Every position lands in exactly one of the failures table or the served positions.

## Model

| member | source | states |
|---|---|---|
| Strings.ResolveIndex | feature_annotations.py:22-26 | Python indexing: an index reaches a cell exactly when `-n <= i < n`, counting from the end when negative; otherwise IndexError (None) |
| Strings.Fill | feature_annotations.py:16 | `[x] * n` has length `n` and every cell `x` |
| Strings.Split | feature_annotations.py:88 | `str.split` on one character always gives at least one piece |
| Strings.SplitSpec | feature_annotations.py:88-92 | no piece holds the separator; there is more than one piece exactly when the separator occurs |
| Strings.JoinSplit | feature_annotations.py:249-251 | joining the pieces of a split with the separator gives back the text |
| Strings.SplitJoin | feature_annotations.py:249-251 | separator-free pieces joined and split again give back the pieces |
| Strings.SplitPiece | feature_annotations.py:88-92 | a separator-free piece before a separator becomes the first piece, the rest split on their own |
| Strings.SplitPair | feature_annotations.py:88-92 | two separator-free pieces around one separator split back into exactly those two |
| Strings.SplitHead | feature_annotations.py:88 | the first piece is the prefix before the first separator, the whole text when there is none |
| Strings.Contains | feature_annotations.py:91 | definition of Python's `in` on strings; `ContainsIff` proves it is the substring relation, `ContainsAt` and `AbsentChar` use it |
| Strings.ContainsIff | feature_annotations.py:91 | the `in` test holds exactly when the pattern occurs at some index |
| Strings.ContainsAt | feature_annotations.py:91 | an occurrence at an index makes `in` true |
| Strings.AbsentChar | feature_annotations.py:91-92 | a pattern with a character the text lacks does not occur in it |
| Strings.Replace | feature_annotations.py:92 | definition of `str.replace`, scanning left to right without overlap; `ReplaceAbsent`, `ReplaceFirst` and `ReplaceSelf` state its properties |
| Strings.ReplaceAbsent | feature_annotations.py:92 | `replace` leaves a text without the pattern unchanged |
| Strings.ReplaceFirst | feature_annotations.py:92 | `replace` keeps the text before the first occurrence, replaces it, and goes on after it (no overlap) |
| Strings.ReplaceCons | feature_annotations.py:92 | one step of the left-to-right scan: a first character that does not start the pattern is kept |
| Strings.NoEarlyMatch | feature_annotations.py:92 | text ahead of the first occurrence does not start with the pattern |
| Strings.ReplaceSkip | feature_annotations.py:92 | where the pattern does not start the text, `replace` keeps the first character |
| Strings.ReplaceSelf | feature_annotations.py:92 | replacing the pattern by itself changes nothing |
| Strings.StripLeft | feature_annotations.py:93 | `lstrip` never lengthens the text |
| Strings.StripRight | feature_annotations.py:93 | `rstrip` never lengthens the text |
| Strings.IsSpace | feature_annotations.py:93 | definition of the characters `str.isspace()` accepts, which `strip()` removes from both ends; `StripLeftSpec`, `StripRightSpec` and `StripSpec` state what is removed |
| Strings.Strip | feature_annotations.py:93 | definition: `rstrip` of `lstrip`; `StripSpec`, `StripWord` and `StripIdempotent` state its properties |
| Strings.StripLeftSpec | feature_annotations.py:93 | `lstrip` gives the suffix after a run of whitespace, and that suffix does not start with whitespace |
| Strings.StripRightSpec | feature_annotations.py:93 | `rstrip` gives the prefix before a run of whitespace, and that prefix does not end with whitespace |
| Strings.StripSpec | feature_annotations.py:93 | `strip` gives the middle of the text between leading and trailing whitespace runs, with no whitespace at either end |
| Strings.StripWord | feature_annotations.py:93 | a word without whitespace at its ends is unchanged by `strip`, also after one leading space |
| Strings.StripIdempotent | feature_annotations.py:93 | stripping twice is stripping once |
| Strings.DigitsValue | feature_annotations.py:87 | a value exists exactly for a non-empty all-digit string |
| Strings.ParseInt | feature_annotations.py:87 | definition of `int` on an optionally signed decimal string, None for the ValueError; `ParseDecimal` and `NegativeDecimal` prove it reads back `str(n)` and `"-" + str(n)` |
| Strings.Decimal | feature_annotations.py:87 | `str(n)` of a natural number is a non-empty digit string |
| Strings.ParseDecimal | feature_annotations.py:87 | `int(str(n)) == n` |
| Strings.NegativeDecimal | feature_annotations.py:87 | `int("-" + str(n)) == -n` |
| Wrappers.Kept | feature_annotations.py:76-103 | one feature gives at most one row |
| Wrappers.FilterMap | feature_annotations.py:76-103 | a skipping walk gives no more results than inputs |
| Wrappers.FilterMapAppend | feature_annotations.py:76-103 | the walk keeps input order: two runs give the first run's results, then the second's |
| Wrappers.FilterMapSnoc | feature_annotations.py:76-103 | one more input at the end adds its result, if any, at the end |
| Wrappers.FilterMapSingle | feature_annotations.py:76-103 | a single input is kept exactly when it converts |
| Regions.SetOne | feature_annotations.py:23-26 | `seq[i] = 1` with its handler keeps the length and keeps every cell 0, 1 or -1 |
| Regions.MarkRange | feature_annotations.py:22-26 | the inner loop keeps the length and the 0/1/-1 cells |
| Regions.MarkRegion | feature_annotations.py:22-26 | one region keeps the length |
| Regions.MarkRegions | feature_annotations.py:21-26 | the outer loop keeps the length and the 0/1/-1 cells |
| Regions.RegToListSpec | feature_annotations.py:10-27 | definition: all zeros when `if regions:` fails (None or empty), else the outer loop over `[0] * length`; `RegToList` is proved to compute it, and `RegToListShape`, `InRangeRegions`, `OverrunResets` and the examples state its properties |
| Regions.RegToList | feature_annotations.py:10-27 | the in-place fill with wholesale reset returns `RegToListSpec`: `length` cells, each 0, 1 or -1, all 0 for no regions |
| Regions.MarkRangeInPlace | feature_annotations.py:22-26 | the inner loop on the buffer (or on the fresh all -1 buffer that replaces it) computes `MarkRange` of the old contents |
| Regions.RegToListShape | feature_annotations.py:16-27 | the result has exactly `length` cells, each 0, 1 or -1 |
| Regions.MarkRangeInBounds | feature_annotations.py:22-24 | indices that all reach a cell set exactly the cells they reach, from either end, and leave the others |
| Regions.OverrunResets | feature_annotations.py:22-26 | a region reaching past the end leaves all -1, whatever the list held |
| Regions.InRangeRegions | feature_annotations.py:16-24 | with `1 <= start` and `end <= length` for all regions, cell p is 1 exactly when some region has `start - 1 <= p < end`, else 0 |
| Regions.MarkRegionsInBounds | feature_annotations.py:21-24 | in-range regions set the covered cells and leave the others as they were |
| Regions.ExampleInside | feature_annotations.py:10-27 | `reg_to_list([(3, 5)], 6) == [0, 0, 1, 1, 1, 0]` |
| Regions.ExampleOverrun | feature_annotations.py:21-26 | `reg_to_list([(5, 10)], 6)` is all -1 |
| Regions.ExampleWriteAfterReset | feature_annotations.py:21-26 | a region after an overrun still writes 1: `[1, 1, -1, -1, -1, -1]` |
| Regions.ExampleStartZero | feature_annotations.py:22-24 | a start of 0 writes the last cell through index -1 |
| Pipeline.Serve | feature_annotations.py:50-72 | the loop serves every input position exactly once |
| Pipeline.Step | feature_annotations.py:56-72 | definition of one iteration: a cache hit, or one request whose success is stored (when caching) and whose failure is recorded; `ServeCached` is proved to perform it, `KeysStep`, `HitsStep` and `AgreesStep` state what it keeps |
| Pipeline.Failures | feature_annotations.py:67-72 | definition of the `failed_protein`/`error` rows, one per failed position in input order; `EachPositionOnce`, `BucketsFromInput` and `BucketsPartitionInput` state its accounting |
| Pipeline.Collect | feature_annotations.py:76-95 | definition of the results table: the rows flattened from each served payload, in input order; `OneRowEach` and `Domains.CompletesWithAccounting` state its properties |
| Pipeline.ServeCached | feature_annotations.py:56-72 | the cache lookup or one request, storing a success only, is one step of `Serve` with caching |
| Pipeline.ServePrefix | feature_annotations.py:50-72 | what the loop did on a prefix of the input is what it did in those positions on the whole input |
| Pipeline.Advance | feature_annotations.py:50-72 | one more position extends the state, the failures table and the rows by that position's outcome |
| Pipeline.RequestsAreMisses | feature_annotations.py:56-65 | a request is issued for exactly the positions not served from the cache, in order |
| Pipeline.UncachedFetchesAll | feature_annotations.py:130-137 | without a cache hit the request log is the input itself and no position comes from the cache |
| Pipeline.KeysStep | feature_annotations.py:56-65 | one step keeps the cache keys equal to the identifiers fetched successfully so far |
| Pipeline.HitsStep | feature_annotations.py:56-65 | one step keeps "a position is a hit exactly when its identifier was fetched before" |
| Pipeline.AgreesStep | feature_annotations.py:56-65 | one step keeps every stored payload equal to what each successful position of that identifier got |
| Pipeline.CacheContents | feature_annotations.py:56-65 | the cache holds exactly the identifiers fetched successfully, each with the payload those positions were served, and hits are exactly the repeats of a success |
| Pipeline.SuccessFetchedOnce | feature_annotations.py:56-72 | after a success an identifier is always served that payload from the cache; a position fetches exactly when no earlier position fetched it successfully |
| Pipeline.EachPositionOnce | feature_annotations.py:67-72 | failures plus served positions count every input position exactly once |
| Pipeline.FailedIds | feature_annotations.py:109 | the `failed_protein` column, one entry per failure row |
| Pipeline.BucketsFromInput | feature_annotations.py:67-72 | only input identifiers appear as failed or as served |
| Pipeline.ElemsAppend | feature_annotations.py:70 | appending an identifier adds it to the set of listed identifiers |
| Pipeline.BucketsPartitionInput | feature_annotations.py:67-72 | for distinct input, the failed and the served identifiers are disjoint and together are the input |
| Pipeline.OneRowEach | feature_annotations.py:157-177 | a flattening with one row per payload gives one row per served position, in input order, keyed by its identifier |
| Ptm.StripEach | feature_annotations.py:92-93 | strips each item and keeps the count |
| Ptm.AgentText | feature_annotations.py:92 | definition: `.replace(" and", ",").replace("by ", "")`; `AgentTextPair` computes it on " by A and B" |
| Ptm.ParseDescription | feature_annotations.py:88-94 | definition of the `ptm` and `by` fields; `DescriptionName`, `DescriptionAgents`, `DescriptionWithTwoAgents` and `ExampleDescription` state its properties |
| Ptm.DescriptionName | feature_annotations.py:88 | `ptm` is the description up to the first `;`, the whole text when there is none, and holds no `;` |
| Ptm.DescriptionAgents | feature_annotations.py:89-94 | `by` is non-empty exactly when a second `;`-segment exists and contains "by"; each agent is stripped and holds no comma |
| Ptm.DescriptionWithTwoAgents | feature_annotations.py:88-94 | "NAME; by A and B" gives `ptm` NAME and `by` [A, B] for enzyme names A and B |
| Ptm.ExampleDescription | feature_annotations.py:88-94 | "Phosphoserine; by PKA and PKC" gives "Phosphoserine" and ["PKA", "PKC"] |
| Ptm.AgentTextPair | feature_annotations.py:92 | the two replaces turn " by A and B" into " A, B" |
| Ptm.AndBecomesComma | feature_annotations.py:92 | `replace(" and", ",")` on " by A and B" gives " by A, B" |
| Ptm.NoAndAfterBy | feature_annotations.py:92 | " and" does not occur before the one after the first enzyme |
| Ptm.NoAndAfterSpace | feature_annotations.py:92 | " and" does not occur after it |
| Ptm.ByDropped | feature_annotations.py:92 | `replace("by ", "")` on " by A, B" gives " A, B" |
| Ptm.NoLowerB | feature_annotations.py:92 | "A, B" with upper-case enzyme names holds no "b" |
| Ptm.LeadingByDropped | feature_annotations.py:92 | the leading "by " is the only occurrence and is dropped |
| Ptm.AgentsOfPair | feature_annotations.py:92-93 | splitting " A, B" at the comma and stripping gives [A, B] |
| Ptm.FeatureRow | feature_annotations.py:78-103 | a feature gives a row exactly when it has evidences, type, description and begin, `int(begin)` parses, and the residue lookup is in range; the row carries the identifier, sequence length, evidence count, type, description, `pos`, the residue at `int(begin) - 1` (counted from the end when negative), and the `ptm` and `by` parsed from the description |
| Ptm.FeatureRows | feature_annotations.py:76-103 | definition: the rows of the features that give one, in feature order; `FeatureRowsFields`, `FeatureRowsAppend` and `FlattenFeatures` state its properties |
| Ptm.PtmRows | feature_annotations.py:76-103 | definition: the rows of one payload are `FeatureRows` over its sequence and features; `FlattenFeatures` computes them and `AnnotPtms` collects them per served position |
| Ptm.FeatureRowsFields | feature_annotations.py:79-80 | every row carries the identifier and `len(sequence)` |
| Ptm.FeatureRowsAppend | feature_annotations.py:76 | rows keep feature order across any split of the feature list |
| Ptm.BeginZeroReadsLast | feature_annotations.py:87 | a `begin` of 0 is not an error and reads the last residue |
| Ptm.BeginPastEndDropped | feature_annotations.py:87 | a `begin` past the end of the sequence drops the feature |
| Ptm.FlattenFeatures | feature_annotations.py:76-103 | the loop over the features returns the rows of `FeatureRows`, in order |
| Ptm.AnnotPtms | feature_annotations.py:44-103 | the request log, the failures table and the rows are those of the cached trace `Serve(ids, fetch, true)`; a dropped feature never adds a failure |
| Ptm.ExampleTimeoutAndSuccess | feature_annotations.py:56-95 | a timeout for the first identifier and one PTM at position 2 of "MSK" for the second, whatever its description, give one failure and one row with residue 'S' |
| Ptm.ExampleServed | feature_annotations.py:56-72 | a failed first identifier is not cached, and the second is fetched with the next request |
| Ptm.ExampleSerineRow | feature_annotations.py:84-87 | a feature with evidence and `begin` "2" on "MSK" gives a row reading 'S' |
| Idr.BuildIdrRow | feature_annotations.py:157-177 | the row built with three `reg_to_list` calls equals `IdrRowOf` |
| Idr.IdrRowOf | feature_annotations.py:157-177 | definition of the row: identifier, length, three `reg_to_list` vectors and the alphafold scores; `BuildIdrRow` computes it and `IdrRowShape` states its shape |
| Idr.IdrRowShape | feature_annotations.py:171-176 | each vector has one cell per residue, each 0, 1 or -1; a block that is missing, lacks `regions` or lists none gives zeros; the scores are the alphafold block's |
| Idr.RegionsOf | feature_annotations.py:171 | definition of `payload.get(k, {}).get('regions')`: None for a missing block or a block without regions; `IdrRowShape` proves the vector is then all zeros |
| Idr.ScoresOf | feature_annotations.py:176 | definition of `payload.get('prediction-disorder-alphafold', {}).get('scores')`: None for a missing block or missing scores; `IdrRowShape` states the row carries exactly these |
| Idr.AnnotIdr | feature_annotations.py:123-177 | the loop follows `Serve(ids, fetch, false)`: the lookup never hits, whatever `cache_mode` stores |
| Idr.IdrAccounting | feature_annotations.py:126-150 | every position is fetched in order; one row per success carrying its identifier; rows plus failures count every position |
| Domains.DomainRows | feature_annotations.py:220-236 | no more rows than entries |
| Domains.EntryOutcomeOf | feature_annotations.py:223-236 | definition of one entry's outcome (skipped, a row, or the IndexError); `EmitsExactly`, `RaisesExactly` and `RowFields` state when each happens and what the row holds |
| Domains.GoIdentifiers | feature_annotations.py:227-231 | definition of `GO_identifiers`, empty for a falsy `go_terms`; `RowFields` states it |
| Domains.GoNames | feature_annotations.py:228-232 | definition of `GO_names`, parallel to `GO_identifiers`; `RowFields` states it |
| Domains.FlattenDomains | feature_annotations.py:220-236 | the loop over the entries returns `DomainRows`, stopping at the first IndexError |
| Domains.DomainRowsRaiseStays | feature_annotations.py:233-235 | once a prefix raises, the whole payload raises |
| Domains.EmitsExactly | feature_annotations.py:223-236 | an entry gives a row exactly when it is a `domain` whose first protein has non-null locations with a first fragment |
| Domains.RaisesExactly | feature_annotations.py:233-235 | an entry raises exactly when it is a `domain` and one of the lists indexed at 0 is empty |
| Domains.RowFields | feature_annotations.py:224-236 | a row carries the protein, the metadata, equal-length GO lists (empty when `go_terms` is falsy, else position by position) and the first fragment |
| Domains.DomainRowsSpec | feature_annotations.py:220-236 | a payload raises exactly when one entry raises; otherwise its rows are those of the emitting entries in entry order |
| Domains.DomainRowsAppend | feature_annotations.py:220 | rows keep entry order across any split of the entries |
| Domains.DomainsOutcome | feature_annotations.py:197-236 | a raised call names a position of the input and its identifier |
| Domains.Extend | feature_annotations.py:220-236 | a raising payload ends the call at its own position |
| Domains.AnnotDomains | feature_annotations.py:193-236 | the loop follows `Serve(ids, fetch, true)` and its outcome is `DomainsOutcome`; the requests are those up to the position that raised |
| Domains.OutcomeNext | feature_annotations.py:197-236 | one more position adds a failure row, or that payload's rows, or ends with its IndexError |
| Domains.RaisedAt | feature_annotations.py:233-235 | a payload that raises at position k ends the whole call there |
| Domains.OutcomeStaysRaised | feature_annotations.py:197-236 | once raised, later positions change nothing |
| Domains.CompletesWithAccounting | feature_annotations.py:213-236 | when no payload raises, the call returns the shared failures table and the rows of each served payload in order |
| GeneOntology.ReferenceList | feature_annotations.py:249 | `read().split("\n")[:-1]` has one line fewer than the pieces of the split |
| GeneOntology.ReferenceListOfLines | feature_annotations.py:249-251 | a file of newline-terminated lines reads back as exactly those lines |
| GeneOntology.GoIds | feature_annotations.py:291 | the identifiers, position by position |
| GeneOntology.GoAspects | feature_annotations.py:292 | the aspects, position by position |
| GeneOntology.CountIn | feature_annotations.py:293-298 | a counter is at most the number of terms |
| GeneOntology.ListsAppend | feature_annotations.py:291-292 | keeping one more annotation appends its identifier and its aspect |
| GeneOntology.CountAppend | feature_annotations.py:293-298 | one more term adds 1 to a counter exactly when it is in the reference list |
| GeneOntology.FirstOccurrences | feature_annotations.py:285-292 | definition of the annotations the `cache_small` loop keeps; `KeptIds`, `KeptAreFirsts` and `AspectOfFirst` state its properties |
| GeneOntology.GoRowOf | feature_annotations.py:283-309 | definition of the row; `BuildGoRow` computes it and `GoRowSpec` states its properties |
| GeneOntology.BuildGoRow | feature_annotations.py:283-309 | the loop with `cache_small` and three counters builds `GoRowOf` |
| GeneOntology.FirstPositions | feature_annotations.py:285-288 | first-occurrence positions are positions of the input |
| GeneOntology.KeptIds | feature_annotations.py:285-291 | `go_terms` (the identifiers of `FirstOccurrences`) has no duplicates and holds exactly the input's identifiers |
| GeneOntology.KeptAreFirsts | feature_annotations.py:285-292 | the kept annotations are those at the first-occurrence positions, in input order |
| GeneOntology.FirstPositionsSpec | feature_annotations.py:285-288 | first-occurrence positions increase, and a position is listed exactly when it holds an identifier's first occurrence |
| GeneOntology.AspectOfFirst | feature_annotations.py:291-292 | each aspect belongs to the first annotation with the same identifier |
| GeneOntology.CountIsOverlap | feature_annotations.py:293-298 | over distinct terms, a counter is the number of terms in its reference list |
| GeneOntology.GoRowSpec | feature_annotations.py:283-309 | distinct terms, exactly the input's identifiers, one aspect each, counters at most the term count and equal to the overlaps |
| GeneOntology.AnnotGo | feature_annotations.py:256-315 | the loop follows `Serve(ids, fetch, false)`: no cache, every position fetched |
| GeneOntology.GoAccounting | feature_annotations.py:258-279 | every position is fetched in order; exactly one row per success carrying its identifier; rows plus failures count every position |

## Left out

- Network access (`requests.get`, `raise_for_status`, JSON decoding, timeouts) is the
  `fetch` oracle. For MobiDB, an empty or missing `data` list is a fetch failure like
  the others, as in the source's handler.
- The failures table's `error` column holds the exception object; here it is an error text.
- pandas DataFrame construction: results are sequences of row records and failure records.
- The `return_failed_attempts` switch: both tables are always returned.
- Progress and verbose printing, and the unconditional error print in `annot_domains`.
- Reading the GO reference files from fixed paths. The three lists are a parameter;
  `ReferenceList` models the `split("\n")[:-1]` applied to a file's text.
- `annot_ELM`, a thin wrapper over the `gget.elm` library.
- The unsupported-source branch of `annot_PTMs`. For a list `source`, as annotated,
  concatenating it with a string raises TypeError, so nothing is printed and no empty
  frame is returned. A string `source` is printed and gives an empty frame.
- Crashes on a payload that lacks any key the code reads with `[...]`, or that holds
  null where a list or dict is read. Examples are the top-level `features`, `sequence`
  and `results`, an entry's `metadata` keys, `proteins`, `entry_protein_locations`,
  `fragments`, a GO term's `identifier` and `name`, and QuickGO's `goId` and `goAspect`.
  The datatypes always carry those fields.
- Ptm.FeatureRow: `int` is modelled on an optionally signed string of ASCII digits.
  Python also accepts surrounding whitespace, underscores and non-ASCII digits, and a
  numeric JSON `begin`; those inputs are not modelled. A non-string description, on
  which `split` raises and drops the feature, is a missing description. A `type` that is
  present but null is not modelled: Python copies the None into the row and keeps it,
  while the model can only write it as a missing `type`, which drops the feature.
- Domains.RowFields: the row keeps the first fragment as one record with `start`, `end`
  and `dc-status`. Other fragment keys, and fragment keys that overwrite earlier row keys
  in the dict merge, are not modelled.
- Idr.AnnotIdr: the payloads stored with `cache_mode` are kept in a local map that is
  never read, as in the source. Its contents are not stated.
- Domains.AnnotDomains: the uncaught IndexError is a `Raised` outcome naming the
  position, not an exception. The tables built up to then are lost, as in the source.
- Pipeline.ServeCached: the fetch-and-cache head of the PTM and domain loops is one
  shared method. The source repeats the same code in each function.
- Ptm.DescriptionWithTwoAgents: proved for agent names of upper-case letters and
  digits only. Other agent texts, such as "autocatalysis" or "PKC/PRKCD", are covered only by
  `DescriptionName` and `DescriptionAgents`.
