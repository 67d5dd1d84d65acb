# IRefIndex adapters in Dafny

A model of the IRefIndex MITAB parser and aggregator, which turns PSI-MI
MITAB 2.6 interaction lines into BioCypher node and edge tuples. The
repository holds the same logic in three shapes, and all three are modelled:

* The **integration adapter**
  (`Integration_Of_IRefIndex_In_Biocypher/template_package/adapters/IRefIndex_adapter.py`).
  - It splits each line on tabs and drops lines whose final references carry a blocked prefix.
  - It extracts the partners, the PubMed id, the method, both taxa and the `rigid:` id.
  - It filters rows by taxon.
  - It folds the rows into an insertion-ordered dictionary of set-valued evidence, keyed by the ordered partner pair.
  - Nodes come from that dictionary through a seen-set walk, edges through one edge per entry.
* The **tutorial adapter** (`Tutorial/adapter/IRefIndex_adapter.py`).
  - The same line parser produces one record per retained line.
  - A data-frame stage follows: field selection and renaming, the first row taken as header, `groupby(sort=False)` with `'|'`-join aggregation, the taxon check, and reciprocal deduplication through `frozenset`.
  - Node property maps are built by last-writer-wins.
  - Edges carry the remaining columns, with a value transform and type-based CURIE prefixing.
* **Adapter 11**
  (`Create_IRefIndex_adapter_based_on_tutorial/template_package/adapters/IRefIndex_adapter_11.py`).
  It is the tutorial pipeline with these differences:
  - a wider blocklist;
  - the edge fields selected once;
  - no taxon check;
  - every node labelled `uniprot_protein`;
  - a fixed `uniprot:` prefix;
  - a field-gated property builder.

The modules follow that structure:

| module | file | contents |
|---|---|---|
| `Wrappers` | `wrappers.dfy` | `Option` and `Result` |
| `Seqs` | `seqs.dfy` | first-occurrence order, which is Python dict insertion order, `groupby(sort=False)` group order and `duplicated()` |
| `Text` | `text.dfy` | `split`, `join`, `replace` and `lower` |
| `OrderedMaps` | `ordered_maps.dfy` | Python dicts: plain assignment runs, and an insertion-ordered dict |
| `Patterns` | `patterns.dfy` | the identifier regular expressions, as predicates with Python `re.match` semantics |
| `ProteinTypes` | `protein_types.dfy` | `find_protein_type`, node labels, `add_prefix_to_identifier` |
| `Mitab` | `mitab.dfy` | the per-line field extractors and the blocklists |
| `Records` | `records.dfy` | the record parser of the tutorial adapter and adapter 11 |
| `SetAdapter` | `set_adapter.dfy` | the integration adapter |
| `Frames` | `frames.dfy` | the data-frame stage shared by the tutorial adapter and adapter 11 |
| `TutorialAdapter` | `tutorial_adapter.dfy` | the tutorial pipeline |
| `Adapter11` | `adapter_11.dfy` | the adapter 11 pipeline |

Python exceptions become error values.

* A line with fewer than 40 tab-separated fields raises `IndexError`. The model returns it as an error result.
* The tutorial adapter and adapter 11 raise these errors:
  - the rename-length exception;
  - `IndexError` on an empty record list;
  - `NameError` when no aggregation flag is set;
  - `KeyError` for a missing column;
  - the taxon `ValueError`;
  - `UnboundLocalError` for an unclassified first node.
* The integration adapter's `assert` on methods containing `'|'` becomes an error value of `get_edges`.

Where the documented behaviour and the code differ, the model follows the code:

* **PubMed ids on merge.** A blank PubMed id is kept out of a new entry (line 233) but added on every later merge (line 241). An entry's PubMed ids can therefore hold a blank string, and they depend on row order (`SetAdapter.PmidDependsOnRowOrder`). The other evidence sets do not depend on row order.
* **Partner identifier.** The partner identifier is `split(":")[1]`: the text between the first and the second colon, not everything after the first colon.
* **Empty input.** In the tutorial adapter and adapter 11, an empty record list is an error (`irefindex_ints[0]`), not an empty result.
* **Node properties.** Only the integration adapter reads node properties from the first interaction carrying the identifier. The other two use dictionaries in which the B side overwrites the A side, so the last writer wins.

## Model

| member | source | states |
|---|---|---|
| Seqs.FirstOccurrences | Tutorial/adapter/IRefIndex_adapter.py:303 | the group order of `groupby(sort=False)`: every value of the input exactly once, and nothing else, ordered by first occurrence |
| Seqs.KeepFirst | Tutorial/adapter/IRefIndex_adapter.py:321-324 | `frame[~duplicated(key)]`: the keys of the kept rows are the distinct keys in first-occurrence order, and each kept row is the first row carrying its key |
| Seqs.KeepFirstKept | Tutorial/adapter/IRefIndex_adapter.py:322 | a kept row has no earlier row with the same key |
| Seqs.KeepFirstDropped | Tutorial/adapter/IRefIndex_adapter.py:322 | a dropped row has an earlier row with the same key |
| Seqs.KeepFirstOfDistinct | Tutorial/adapter/IRefIndex_adapter.py:307 | when no two rows share a key, `duplicated()` drops nothing |
| Text.JoinSplit | Integration_Of_IRefIndex_In_Biocypher/template_package/adapters/IRefIndex_adapter.py:176-179 | joining the pieces of a split with the same separator gives the text back |
| Text.SplitJoin | Integration_Of_IRefIndex_In_Biocypher/template_package/adapters/IRefIndex_adapter.py:176-179 | splitting a join of separator-free pieces gives the pieces back |
| Text.SplitFirstPiece | Integration_Of_IRefIndex_In_Biocypher/template_package/adapters/IRefIndex_adapter.py:161-163 | the first piece of a split is the text up to the first separator |
| Text.SplitLastPiece | Integration_Of_IRefIndex_In_Biocypher/template_package/adapters/IRefIndex_adapter.py:177-179 | `parts[-1]` is the longest separator-free suffix; it is all of the text exactly when there is a single piece |
| Text.ReplaceChar | Integration_Of_IRefIndex_In_Biocypher/template_package/adapters/IRefIndex_adapter.py:332-336 | `replace` keeps the length, changes exactly the occurrences of the character, and leaves none behind |
| Text.ReplaceAbsent | Integration_Of_IRefIndex_In_Biocypher/template_package/adapters/IRefIndex_adapter.py:332-336 | replacing a character that does not occur changes nothing |
| Text.LowerAscii | Tutorial/adapter/IRefIndex_adapter.py:463 | `lower` keeps the length, turns each ASCII capital into its lower-case letter and keeps every other character |
| Text.JoinEmpty | Tutorial/adapter/IRefIndex_adapter.py:286-288 | a join is empty exactly when there is nothing to join or one empty piece, the case in which `aggregate_fields` returns NaN |
| Text.JoinHoldsSeparator | Tutorial/adapter/IRefIndex_adapter.py:462 | a join of two or more pieces contains the separator, so the edge transform splits it again |
| Text.JoinWithoutChar | Tutorial/adapter/IRefIndex_adapter.py:286 | a join of pieces without a character other than the separator does not contain that character |
| OrderedMaps.AssignLastWins | Tutorial/adapter/IRefIndex_adapter.py:348-349 | `dict(zip(..))` then `update(zip(..))`: a key is present iff it was before or is assigned, and holds the value of its last assignment |
| OrderedMaps.Put | Integration_Of_IRefIndex_In_Biocypher/template_package/adapters/IRefIndex_adapter.py:229-230 | `d[k] = v` updates the map, and appends `k` to the iteration order only when it is new |
| OrderedMaps.PutValid | Integration_Of_IRefIndex_In_Biocypher/template_package/adapters/IRefIndex_adapter.py:229-230 | storing keeps the key list and the map in step, each key listed once |
| OrderedMaps.PutAll | Tutorial/adapter/IRefIndex_adapter.py:459-469 | a run of assignments gives the last-writer map, with its keys in order of first assignment |
| OrderedMaps.PutAllValid | Tutorial/adapter/IRefIndex_adapter.py:459-469 | a run of assignments keeps the key list and the map in step |
| Patterns.UniProtMatchShape | Integration_Of_IRefIndex_In_Biocypher/template_package/adapters/IRefIndex_adapter.py:45-50 | an identifier the UniProt pattern accepts has at least six characters and a digit in second place |
| Patterns.RefSeqMatchShape | Integration_Of_IRefIndex_In_Biocypher/template_package/adapters/IRefIndex_adapter.py:52-58 | an identifier the RefSeq pattern accepts starts with two capitals and an underscore |
| Patterns.EntrezMatchShape | Integration_Of_IRefIndex_In_Biocypher/template_package/adapters/IRefIndex_adapter.py:60-61 | an identifier the Entrez pattern accepts starts with a capital |
| Patterns.AnchoredRefSeqImpliesUnanchored | Tutorial/adapter/IRefIndex_adapter.py:335-336 | the tutorial's RefSeq test without `$` accepts everything the anchored test accepts |
| Patterns.NoIsoformImpliesIsoform | Tutorial/adapter/IRefIndex_adapter.py:331-332 | the tutorial's UniProt test without the isoform group accepts only what the full pattern accepts |
| ProteinTypes.FindProteinType | Integration_Of_IRefIndex_In_Biocypher/template_package/adapters/IRefIndex_adapter.py:44-63 | first match wins: uniprot iff the UniProt pattern matches; refseq iff the RefSeq pattern matches (the two never both match); entrez iff only the Entrez pattern matches; none iff no pattern matches; each answer also fixes the identifier's shape |
| ProteinTypes.RefSeqShapedIsRefSeq | Integration_Of_IRefIndex_In_Biocypher/template_package/adapters/IRefIndex_adapter.py:44-58 | with first match winning, an identifier of RefSeq shape is never taken for UniProt, so it is classified RefSeq |
| ProteinTypes.UniProtIgnoresTrailingText | Integration_Of_IRefIndex_In_Biocypher/template_package/adapters/IRefIndex_adapter.py:46 | the first UniProt alternative has no `$`, so any identifier starting with such an accession is UniProt |
| ProteinTypes.EmptyIdentifierHasNoType | Integration_Of_IRefIndex_In_Biocypher/template_package/adapters/IRefIndex_adapter.py:44-63 | the empty identifier has no type |
| ProteinTypes.UniProtExample | Integration_Of_IRefIndex_In_Biocypher/template_package/adapters/IRefIndex_adapter.py:45-50 | P12345 is uniprot |
| ProteinTypes.RefSeqExample | Integration_Of_IRefIndex_In_Biocypher/template_package/adapters/IRefIndex_adapter.py:52-58 | NP_000001 is refseq |
| ProteinTypes.EntrezExample | Integration_Of_IRefIndex_In_Biocypher/template_package/adapters/IRefIndex_adapter.py:60-61 | ABC123 is entrez |
| ProteinTypes.UnclassifiedExample | Integration_Of_IRefIndex_In_Biocypher/template_package/adapters/IRefIndex_adapter.py:63 | "abc" has no type, and its node label is "None_protein" |
| ProteinTypes.CommaAndSpaceAreAccepted | Integration_Of_IRefIndex_In_Biocypher/template_package/adapters/IRefIndex_adapter.py:46 | the character classes hold a literal comma and space, so "A1B, 5" is uniprot |
| ProteinTypes.NodeLabel | Integration_Of_IRefIndex_In_Biocypher/template_package/adapters/IRefIndex_adapter.py:287 | the label is "uniprot_protein" iff the UniProt pattern matches, "refseq_protein" iff the RefSeq pattern matches, "entrez_protein" iff only the Entrez pattern matches, and "None_protein" iff no pattern matches |
| ProteinTypes.LabelSharesCuriePrefix | Integration_Of_IRefIndex_In_Biocypher/template_package/adapters/IRefIndex_adapter.py:287-310 | a classified identifier's node label begins with the same type prefix that the CURIE of `add_prefix_to_identifier` carries before its colon |
| ProteinTypes.AddPrefixToIdentifier | Integration_Of_IRefIndex_In_Biocypher/template_package/adapters/IRefIndex_adapter.py:302-312 | the identity when prefixing is off or the identifier is empty; otherwise the normalised `type:identifier`, with an empty type when unclassified |
| ProteinTypes.AddPrefixRoundTrip | Integration_Of_IRefIndex_In_Biocypher/template_package/adapters/IRefIndex_adapter.py:302-312 | before normalisation the CURIE splits at its first colon into the type's prefix and the identifier, so the identifier is recovered even when it holds colons |
| Mitab.PartnerIdIsSecondPiece | Integration_Of_IRefIndex_In_Biocypher/template_package/adapters/IRefIndex_adapter.py:160-172 | the partner is the text between the first colon and the next colon or the end, and "" without a colon |
| Mitab.PartnerIdOfPrefixedReference | Integration_Of_IRefIndex_In_Biocypher/template_package/adapters/IRefIndex_adapter.py:161-163 | `database:accession` yields the accession |
| Mitab.PartnerIdStopsAtSecondColon | Integration_Of_IRefIndex_In_Biocypher/template_package/adapters/IRefIndex_adapter.py:161-163 | text after a second colon is not part of the partner |
| Mitab.PartnerIdExamples | Integration_Of_IRefIndex_In_Biocypher/template_package/adapters/IRefIndex_adapter.py:160-172 | "uniprotkb:P12345" yields P12345; "P12345" yields "" |
| Mitab.PubmedIdSpec | Integration_Of_IRefIndex_In_Biocypher/template_package/adapters/IRefIndex_adapter.py:174-179 | the PubMed id is the longest suffix of field 8 free of both '\|' and ':' |
| Mitab.PubmedIdOfLastReference | Integration_Of_IRefIndex_In_Biocypher/template_package/adapters/IRefIndex_adapter.py:176-179 | whatever precedes it, a number after the last '\|' or ':' is the PubMed id |
| Mitab.PubmedIdExample | Integration_Of_IRefIndex_In_Biocypher/template_package/adapters/IRefIndex_adapter.py:174-179 | of two references only the last number is kept |
| Mitab.CloseFromSpec | Integration_Of_IRefIndex_In_Biocypher/template_package/adapters/IRefIndex_adapter.py:183 | the lazy `.*?\)` stops at the first ')', and fails when a newline comes first |
| Mitab.GroupOpensIff | Integration_Of_IRefIndex_In_Biocypher/template_package/adapters/IRefIndex_adapter.py:183-184 | the computed opening agrees with the regex: a group opens at a position iff some parenthesised match starts there |
| Mitab.MethodOfSpec | Integration_Of_IRefIndex_In_Biocypher/template_package/adapters/IRefIndex_adapter.py:181-190 | `re.search`: the method is the contents of the leftmost parenthesised group, and "" when there is none |
| Mitab.RunEndSpec | Integration_Of_IRefIndex_In_Biocypher/template_package/adapters/IRefIndex_adapter.py:194 | the greedy `+` takes the whole run of class characters |
| Mitab.FirstTagSpec | Integration_Of_IRefIndex_In_Biocypher/template_package/adapters/IRefIndex_adapter.py:192-197 | the search finds the leftmost "taxid:" that is followed by a digit, or reports none |
| Mitab.TaggedFromSpec | Integration_Of_IRefIndex_In_Biocypher/template_package/adapters/IRefIndex_adapter.py:192-208 | the taxon is the digit run after the leftmost matching "taxid:", and "" without a match |
| Mitab.TaggedFromFound | Integration_Of_IRefIndex_In_Biocypher/template_package/adapters/IRefIndex_adapter.py:210-222 | the extracted id is non-empty exactly when the tag occurs followed by a class character |
| Mitab.FirstMalformed | Integration_Of_IRefIndex_In_Biocypher/template_package/adapters/IRefIndex_adapter.py:137-142 | the first line with fewer than 40 fields; every line before it has them |
| Records.Scan | Tutorial/adapter/IRefIndex_adapter.py:123-131 | a failed parse names a row with fewer than 40 fields |
| Records.ScanSucceedsIffComplete | Tutorial/adapter/IRefIndex_adapter.py:123-131 | the loop fails exactly when some row has fewer than 40 fields |
| Records.ParseSucceedsIffWellFormed | Tutorial/adapter/IRefIndex_adapter.py:123-131 | parsing a file fails exactly when one of its lines has fewer than 40 fields |
| Records.ScanFailsAtFirstShortRow | Tutorial/adapter/IRefIndex_adapter.py:123-131 | the error is raised at the first short row: every row before it is complete |
| Records.ParseOneRow | Tutorial/adapter/IRefIndex_adapter.py:133-218 | a complete line yields its one record, or nothing when a reference is blocked |
| Records.ScanAppend | Tutorial/adapter/IRefIndex_adapter.py:209-218 | records are appended line by line in input order, without merging |
| Records.ScanAppendFailure | Tutorial/adapter/IRefIndex_adapter.py:123-131 | an error in later lines is the error of the whole file when the earlier lines parse |
| Records.WithoutHeader | Tutorial/adapter/IRefIndex_adapter.py:268-269 | the first record is dropped as a header and the rest kept in order |
| SetAdapter.NonEmpty | Integration_Of_IRefIndex_In_Biocypher/template_package/adapters/IRefIndex_adapter.py:234-238 | `{v} if v != "" else set()` never holds "" and holds every non-empty `v` |
| SetAdapter.Create | Integration_Of_IRefIndex_In_Biocypher/template_package/adapters/IRefIndex_adapter.py:229-239 | a new entry holds the row's non-empty values, its PubMed id only when not blank, and the taxon argument |
| SetAdapter.Merge | Integration_Of_IRefIndex_In_Biocypher/template_package/adapters/IRefIndex_adapter.py:240-251 | merging only unions the row's non-empty values into the sets; the PubMed id is added even when blank |
| SetAdapter.Absorb | Integration_Of_IRefIndex_In_Biocypher/template_package/adapters/IRefIndex_adapter.py:229-251 | a row adds its pair to the keys and leaves every other entry unchanged |
| SetAdapter.RowOf | Integration_Of_IRefIndex_In_Biocypher/template_package/adapters/IRefIndex_adapter.py:145-226 | a line contributes a row iff no final reference is blocked and the taxa pass the filter |
| SetAdapter.Retained | Integration_Of_IRefIndex_In_Biocypher/template_package/adapters/IRefIndex_adapter.py:224-226 | every retained row passes the taxon filter |
| SetAdapter.ProcessFoldsRetainedRows | Integration_Of_IRefIndex_In_Biocypher/template_package/adapters/IRefIndex_adapter.py:135-257 | on a well-formed file the run folds exactly the retained rows, in order, and raises nothing |
| SetAdapter.ProcessStopsAtFirstMalformed | Integration_Of_IRefIndex_In_Biocypher/template_package/adapters/IRefIndex_adapter.py:137-142 | otherwise it stops at the first short line with `IndexError`, keeping what the earlier lines stored |
| SetAdapter.BlockedLineIsSkipped | Integration_Of_IRefIndex_In_Biocypher/template_package/adapters/IRefIndex_adapter.py:145-158 | a line with a complex:, pdb: or flybase: final reference leaves the dictionary as it was |
| SetAdapter.WildcardKeepsUnblockedRows | Integration_Of_IRefIndex_In_Biocypher/template_package/adapters/IRefIndex_adapter.py:224-226 | with "*" no row is filtered for its taxa |
| SetAdapter.FoldKeys | Integration_Of_IRefIndex_In_Biocypher/template_package/adapters/IRefIndex_adapter.py:229-230 | the dictionary has exactly one key per distinct ordered pair, in first-appearance order |
| SetAdapter.FoldEntries | Integration_Of_IRefIndex_In_Biocypher/template_package/adapters/IRefIndex_adapter.py:229-251 | each entry gathers the non-empty values of its pair's rows; its PubMed ids are the first row's if not blank plus every later row's |
| SetAdapter.AbsorbShape | Integration_Of_IRefIndex_In_Biocypher/template_package/adapters/IRefIndex_adapter.py:229-230 | one more row keeps the key order equal to first appearance and the keys equal to the pairs seen |
| SetAdapter.EntryStepCreate | Integration_Of_IRefIndex_In_Biocypher/template_package/adapters/IRefIndex_adapter.py:229-239 | the first row of a pair creates what that row alone adds up to |
| SetAdapter.EntryStepMerge | Integration_Of_IRefIndex_In_Biocypher/template_package/adapters/IRefIndex_adapter.py:240-251 | a later row of a pair merges into what the earlier rows add up to |
| SetAdapter.EntryStepOther | Integration_Of_IRefIndex_In_Biocypher/template_package/adapters/IRefIndex_adapter.py:229-251 | a row of another pair leaves an entry as it was |
| SetAdapter.PmidEvidenceOfNewPair | Integration_Of_IRefIndex_In_Biocypher/template_package/adapters/IRefIndex_adapter.py:233 | a pair's first row contributes its PubMed id only when not blank |
| SetAdapter.EvidenceIgnoresOrder | Integration_Of_IRefIndex_In_Biocypher/template_package/adapters/IRefIndex_adapter.py:234-251 | the method, taxon and relationship-id evidence depend only on which rows there are, not on their order |
| SetAdapter.NoEmptyEvidence | Integration_Of_IRefIndex_In_Biocypher/template_package/adapters/IRefIndex_adapter.py:234-251 | method, taxa and relationship ids never receive "" |
| SetAdapter.PmidDependsOnRowOrder | Integration_Of_IRefIndex_In_Biocypher/template_package/adapters/IRefIndex_adapter.py:233-241 | a blank PubMed id is dropped when its row comes first and kept when it comes later, so the PubMed ids depend on row order |
| SetAdapter.BlankPmidFirst | Integration_Of_IRefIndex_In_Biocypher/template_package/adapters/IRefIndex_adapter.py:233 | a blank PubMed id on the creating row is left out |
| SetAdapter.BlankPmidLast | Integration_Of_IRefIndex_In_Biocypher/template_package/adapters/IRefIndex_adapter.py:241 | a blank PubMed id on a merging row is added |
| SetAdapter.AbsorbPmid | Integration_Of_IRefIndex_In_Biocypher/template_package/adapters/IRefIndex_adapter.py:233-241 | the PubMed ids after one row: the old ones plus the row's, or the row's alone when not blank |
| SetAdapter.ReversedPairIsSeparate | Integration_Of_IRefIndex_In_Biocypher/template_package/adapters/IRefIndex_adapter.py:229 | (A, B) and (B, A) are two separate keys |
| SetAdapter.TwoRowKeys | Integration_Of_IRefIndex_In_Biocypher/template_package/adapters/IRefIndex_adapter.py:229-230 | two rows leave one key when they share a pair, else both keys in order |
| SetAdapter.AbsorbKeys | Integration_Of_IRefIndex_In_Biocypher/template_package/adapters/IRefIndex_adapter.py:229-230 | a row's pair is appended to the key order unless it is already there |
| SetAdapter.EndpointsCarry | Integration_Of_IRefIndex_In_Biocypher/template_package/adapters/IRefIndex_adapter.py:273-274 | an identifier is visited exactly when some key carries it |
| SetAdapter.FirstCarrierSpec | Integration_Of_IRefIndex_In_Biocypher/template_package/adapters/IRefIndex_adapter.py:273-276 | the first carrying key is found iff one exists, it carries the identifier, and no earlier key does |
| SetAdapter.NodeForNewIdentifier | Integration_Of_IRefIndex_In_Biocypher/template_package/adapters/IRefIndex_adapter.py:273-289 | a node is read from the first interaction whose pair carries its identifier |
| SetAdapter.Visit | Integration_Of_IRefIndex_In_Biocypher/template_package/adapters/IRefIndex_adapter.py:274-297 | an identifier not seen before yields its node read from the current interaction; a seen one yields nothing |
| SetAdapter.GetNodes | Integration_Of_IRefIndex_In_Biocypher/template_package/adapters/IRefIndex_adapter.py:259-297 | one node per distinct identifier of the keys, in first-encounter order, each read from its first carrying interaction with the taxa of its side (B when both) |
| SetAdapter.Escaped | Integration_Of_IRefIndex_In_Biocypher/template_package/adapters/IRefIndex_adapter.py:332-336 | the property values are exactly the stored values with `'` replaced by `^`, and none holds `'` |
| SetAdapter.GetEdges | Integration_Of_IRefIndex_In_Biocypher/template_package/adapters/IRefIndex_adapter.py:314-342 | one edge per entry in dictionary order; the stream fails exactly at the first entry whose methods contain '\|' |
| Frames.Renamed | Tutorial/adapter/IRefIndex_adapter.py:250-251 | the rename branch pairs selected fields with new names positionally |
| Frames.Defaulted | Tutorial/adapter/IRefIndex_adapter.py:258-259 | the default branch gives every selected field its default label |
| Frames.FieldNewNames | Tutorial/adapter/IRefIndex_adapter.py:244-262 | a non-empty rename list fails exactly when its length differs from the number of selected fields |
| Frames.LabelPairsKeys | Tutorial/adapter/IRefIndex_adapter.py:250-262 | the dictionary is filled with the selected fields in order, then partner_a and partner_b |
| Frames.LabelPairsHasField | Tutorial/adapter/IRefIndex_adapter.py:250-259 | a field is renamed iff it is selected |
| Frames.FieldNewNamesPartners | Tutorial/adapter/IRefIndex_adapter.py:254-262 | both branches map partner_a to uniprot_a and partner_b to uniprot_b |
| Frames.FieldNewNamesLabels | Tutorial/adapter/IRefIndex_adapter.py:244-262 | exactly the selected fields are labelled: with new names, by the name at the field's last position; without, by its default |
| Frames.DoubledSelectionUsesSecondHalf | Tutorial/adapter/IRefIndex_adapter.py:237-251 | with the field list selected twice, every field takes its new name from the second half of the names |
| Frames.CheckLabels | Tutorial/adapter/IRefIndex_adapter.py:278 | the renamed frame is usable exactly when no two columns share a label |
| Frames.Lookup | Tutorial/adapter/IRefIndex_adapter.py:313 | `frame[name]` fails with `KeyError` exactly when no column has the label, and otherwise returns a column carrying it |
| Frames.LookupUnique | Tutorial/adapter/IRefIndex_adapter.py:313 | with distinct labels the column found is the only one carrying the label |
| Frames.AggregateSpec | Tutorial/adapter/IRefIndex_adapter.py:285-290 | `aggregate_fields` is NaN exactly when every value is empty, and otherwise the '\|'-join of each distinct value once |
| Frames.AggregateSplits | Tutorial/adapter/IRefIndex_adapter.py:285-290 | when no value holds '\|', splitting the aggregate gives back the distinct values |
| Frames.GroupOfSpec | Tutorial/adapter/IRefIndex_adapter.py:303 | a pair's group holds exactly its records and starts with the first of them |
| Frames.GroupByPairs | Tutorial/adapter/IRefIndex_adapter.py:303 | the grouped rows carry each pair of the records once, in first-appearance order |
| Frames.GroupByRowPair | Tutorial/adapter/IRefIndex_adapter.py:303 | every grouped row's pair occurs in the records |
| Frames.GroupByCells | Tutorial/adapter/IRefIndex_adapter.py:292-303 | an aggregated field holds the aggregate of the pair's values; any other field holds the value of the pair's first record |
| Frames.GroupValues | Tutorial/adapter/IRefIndex_adapter.py:292-303 | the values an aggregate is built from are exactly those of the pair's records |
| Frames.DropDuplicatesAfterGroupBy | Tutorial/adapter/IRefIndex_adapter.py:307 | `drop_duplicates` on the pair columns after the grouping drops nothing |
| Frames.RowsWith | Tutorial/adapter/IRefIndex_adapter.py:318 | the selection keeps exactly the rows holding the value |
| Frames.RowsWithAppend | Tutorial/adapter/IRefIndex_adapter.py:318 | the boolean mask keeps order and multiplicity: selecting from a concatenation concatenates the selections |
| Frames.RowsWithAt | Tutorial/adapter/IRefIndex_adapter.py:318 | a row holding the value comes in the selection right after the selection of the rows before it |
| Frames.RowsWithDistinct | Tutorial/adapter/IRefIndex_adapter.py:318 | the mask keeps partner pairs distinct |
| Frames.TaxonCheckSpec | Tutorial/adapter/IRefIndex_adapter.py:312-318 | `KeyError` without a taxon column; `ValueError` exactly when no row holds the taxon; otherwise exactly the rows with it |
| Frames.ReciprocalDedupKeepsFirst | Tutorial/adapter/IRefIndex_adapter.py:321-324 | a row is kept iff no earlier row has the same frozenset of partners (and method) |
| Frames.SelectedRowsHoldValue | Tutorial/adapter/IRefIndex_adapter.py:318-324 | every row kept after the mask and the dedup holds the value |
| Frames.EarlierSelectedKeys | Tutorial/adapter/IRefIndex_adapter.py:318-324 | no row selected before position j has a given key iff no earlier row holding the value has it |
| Frames.SelectedRowKeptFirst | Tutorial/adapter/IRefIndex_adapter.py:318-324 | a row holding the value survives the dedup iff no earlier row holding the value has its frozenset key |
| Frames.SelectedDedupKeepsFirst | Tutorial/adapter/IRefIndex_adapter.py:318-324 | a row survives mask and dedup iff it holds the value and no earlier row holding the value has its frozenset key |
| Frames.ReversedPairIsDropped | Tutorial/adapter/IRefIndex_adapter.py:321-322 | (B, A) after (A, B) with the same method is dropped |
| Frames.FinalRowsFromGroups | Tutorial/adapter/IRefIndex_adapter.py:318-324 | the final rows are grouped rows with distinct pairs and distinct frozenset keys |
| Frames.NodeIdsSides | Tutorial/adapter/IRefIndex_adapter.py:343-345 | the node identifiers are those of either partner column |
| Frames.NodeMapDomain | Tutorial/adapter/IRefIndex_adapter.py:348-355 | an identifier has a property value iff it is a partner of some row |
| Frames.NodeMapLastWriter | Tutorial/adapter/IRefIndex_adapter.py:348-355 | the value comes from the last row where the identifier is partner B, and only when it never is, from its last row as partner A |
| Frames.NodeColumnsPresent | Tutorial/adapter/IRefIndex_adapter.py:343-371 | when `ids` lists the table's partner identifiers, each of them finds a taxon, PubMed and method value |
| Frames.NodeValuesPresent | Tutorial/adapter/IRefIndex_adapter.py:369-371 | every identifier of the table finds a value in each property map, taken from a row it belongs to |
| Frames.PropOfSpec | Tutorial/adapter/IRefIndex_adapter.py:460-469 | NaN and "nan" are dropped; a value with '\|' becomes pieces that join back to the escaped value; any other value becomes its escaped string |
| Frames.AggregatedCellBecomesList | Tutorial/adapter/IRefIndex_adapter.py:462-465 | an aggregate of two or more clean values turns back into exactly those values |
| Frames.PropPairsSpec | Tutorial/adapter/IRefIndex_adapter.py:457-469 | each property pair comes from a non-partner column whose value is kept, and every such column contributes one |
| Frames.EdgePropsSpec | Tutorial/adapter/IRefIndex_adapter.py:459-469 | a property key is present exactly when a kept non-partner column maps to it, and holds the transformed value of such a column |
| Frames.Edges | Tutorial/adapter/IRefIndex_adapter.py:451-471 | one edge per row, in order, with id None, the prefixed partners and the row's properties |
| Frames.PutIfSpec | Tutorial/adapter/IRefIndex_adapter.py:522-529 | a conditional store adds its key only when wanted and changes no other key |
| TutorialAdapter.FilteredSpec | Tutorial/adapter/IRefIndex_adapter.py:312-324 | the filter fails exactly as the taxon check does; on success every row has the taxon, and pairs and frozenset keys are distinct |
| TutorialAdapter.FinalTableErrors | Tutorial/adapter/IRefIndex_adapter.py:246-324 | the errors, in the order the code meets them: rename length, empty file, repeated label, no aggregation flag, then the taxon check |
| TutorialAdapter.FinalTableSpec | Tutorial/adapter/IRefIndex_adapter.py:268-324 | on success every row holds the taxon, comes from a pair after the header, and no two rows share a pair or a frozenset key |
| TutorialAdapter.FinalTableIsFiltered | Tutorial/adapter/IRefIndex_adapter.py:303-324 | a successful table is the taxon filter and the dedup applied to the grouped rows |
| TutorialAdapter.FilteredKeepsFirst | Tutorial/adapter/IRefIndex_adapter.py:318-324 | the filter keeps a grouped row iff it holds the taxon and no earlier grouped row holding the taxon has its frozenset key |
| TutorialAdapter.FinalTableKeepsFirst | Tutorial/adapter/IRefIndex_adapter.py:312-324 | a grouped row is in the final table iff it holds the taxon and no earlier grouped row holding the taxon has its frozenset key |
| TutorialAdapter.NodeLabels | Tutorial/adapter/IRefIndex_adapter.py:367-382 | the loop either fails on an unbound label or gives one label per identifier |
| TutorialAdapter.NodeLabelsSpec | Tutorial/adapter/IRefIndex_adapter.py:368-382 | the loop succeeds iff the first identifier has a label; each identifier then gets the label of the last classified identifier up to it |
| TutorialAdapter.FirstLabel | Tutorial/adapter/IRefIndex_adapter.py:373-382 | the first identifier's label is its own type, else the previous label; without either, the loop fails on it |
| TutorialAdapter.NodeLabelAt | Tutorial/adapter/IRefIndex_adapter.py:368-382 | on success, each identifier's label is the one in force after it |
| TutorialAdapter.UnclassifiedFirstIdFails | Tutorial/adapter/IRefIndex_adapter.py:373-382 | an unclassified first identifier reads `protein_type` before any assignment |
| TutorialAdapter.GeneratePropertiesSpec | Tutorial/adapter/IRefIndex_adapter.py:519-531 | a property is present iff it is one of the three and listed (all three with no list), and holds the value passed for it |
| TutorialAdapter.GeneratePropertiesKeys | Tutorial/adapter/IRefIndex_adapter.py:519-531 | the properties present are exactly the listed ones among pubmed_ids, taxon and method |
| TutorialAdapter.GeneratePropertiesValues | Tutorial/adapter/IRefIndex_adapter.py:519-531 | each present property holds the value passed for it |
| TutorialAdapter.MakeNodes | Tutorial/adapter/IRefIndex_adapter.py:368-382 | one node per identifier, its three properties looked up in the node maps |
| TutorialAdapter.GetNodesSpec | Tutorial/adapter/IRefIndex_adapter.py:343-385 | for `ids` listing the partner identifiers of the table once each: fails on the first missing node column, then on an unclassified first identifier; otherwise one node per identifier with the label in force and the looked-up properties, every one of which is present |
| TutorialAdapter.GetEdges | Tutorial/adapter/IRefIndex_adapter.py:410-471 | one edge per final row; partners prefixed by type when prefixing is on and non-empty, kept otherwise |
| Adapter11.ExtendedBlocklistIsWider | Create_IRefIndex_adapter_based_on_tutorial/template_package/adapters/IRefIndex_adapter_11.py:132-141 | the wider blocklist drops everything the core one drops, and refseq: and dbj/embl/genbank: references too |
| Adapter11.FinalTableErrors | Create_IRefIndex_adapter_based_on_tutorial/template_package/adapters/IRefIndex_adapter_11.py:238-329 | the errors in order: rename length, empty file, repeated label, no aggregation flag; there is no taxon error |
| Adapter11.FinalTableIsDeduplicated | Create_IRefIndex_adapter_based_on_tutorial/template_package/adapters/IRefIndex_adapter_11.py:329-336 | a successful table is the reciprocal dedup of the grouped rows |
| Adapter11.FinalTableSpec | Create_IRefIndex_adapter_based_on_tutorial/template_package/adapters/IRefIndex_adapter_11.py:269-336 | on success every row is a grouped row of a pair after the header, and pairs and frozenset keys are distinct |
| Adapter11.FinalTableKeepsFirst | Create_IRefIndex_adapter_based_on_tutorial/template_package/adapters/IRefIndex_adapter_11.py:333-336 | a grouped row is kept iff no earlier grouped row has its frozenset key |
| Adapter11.MethodFollowsTaxonAsWritten | Create_IRefIndex_adapter_based_on_tutorial/template_package/adapters/IRefIndex_adapter_11.py:498-500 | as written, listing METHODS alone gives no "method" and listing TAXON alone gives one |
| Adapter11.GeneratePropertiesSpec | Create_IRefIndex_adapter_based_on_tutorial/template_package/adapters/IRefIndex_adapter_11.py:487-502 | corrected builder: each property present iff its field is listed (nothing for None), holding the value passed for it |
| Adapter11.AsWrittenAgreesWhenBothOrNeither | Create_IRefIndex_adapter_based_on_tutorial/template_package/adapters/IRefIndex_adapter_11.py:487-502 | the code as written and the corrected builder agree iff TAXON and METHODS are both listed or neither is |
| Adapter11.DefaultNodesHaveNoProperties | Create_IRefIndex_adapter_based_on_tutorial/template_package/adapters/IRefIndex_adapter_11.py:68-71 | with the default (empty) node fields every node has no properties |
| Adapter11.MakeNodes | Create_IRefIndex_adapter_based_on_tutorial/template_package/adapters/IRefIndex_adapter_11.py:357-364 | one uniprot_protein node per identifier, with the listed properties looked up in the node maps |
| Adapter11.GetNodesSpec | Create_IRefIndex_adapter_based_on_tutorial/template_package/adapters/IRefIndex_adapter_11.py:341-368 | for `ids` listing the partner identifiers of the table once each: succeeds iff the three node columns exist; then nothing without proteins, else one uniprot_protein node per identifier with the listed properties looked up, every looked-up value present |
| Adapter11.AddUniProtPrefixRoundTrip | Create_IRefIndex_adapter_based_on_tutorial/template_package/adapters/IRefIndex_adapter_11.py:389-397 | prefixing a non-empty identifier puts "uniprot:" before it, and dropping the prefix gives it back; otherwise it is unchanged |
| Adapter11.GetEdges | Create_IRefIndex_adapter_based_on_tutorial/template_package/adapters/IRefIndex_adapter_11.py:405-437 | one edge per final row; partners prefixed "uniprot:" when prefixing is on and non-empty, kept otherwise |

## Left out

- File discovery, `open`, logging, timing and progress bars are left out. Each parser takes the lines of its input file instead.
- `normalize_curie` (bioregistry) is a function parameter, because it is foreign code.
- `get_taxon_id` (tutorial adapter) is a parameter `taxon`, because it reads the run configuration.
- Generators are modelled as the sequences they yield. Laziness is not modelled. `SetAdapter.GetEdges` returns the edges yielded before the failing entry together with the failure, as the generator does. In the tutorial adapter and adapter 11, a node stream that fails is an error result, not a partial stream.
- Python set iteration order is not modelled. In the tutorial adapter and adapter 11, the node identifier set `set(nodes_a) | set(nodes_b)` is the parameter `ids`. The parameter is required to list exactly those identifiers, each once, in an order left open.
  - In the integration adapter, node and edge properties are kept as sets rather than '|'-joined strings or lists.
  - `aggregate_fields` joins in first-appearance order. Its contract speaks only of which values are joined, each once.
- The patterns read `\d` as an ASCII digit, while Python's `\d` accepts every Unicode decimal digit. `str.isspace` is modelled on the Latin-1 range only.
- Text.LowerAscii: lowers ASCII capitals only. Python's `str.lower`, applied to property keys, also lowers non-ASCII capitals.
- A rename that gives two columns the same label is an error value. pandas would build a frame with a repeated label, whose later use misbehaves in ways not modelled.
- `dropna(subset=["uniprot_a", "uniprot_b"])` and `reset_index` are the identity. The partner cells come from the parser and are never NaN.
- The `source` column is dropped by the column selection right after it is added, so it is not modelled.
- Node and edge types are reduced to whether proteins are wanted. Edges are produced regardless of `edge_types`, as in the code.
- Frames.DedupKey: because `aggregate_fields` joins in first-appearance order, one value set seen in two orders gives two different cells. An aggregated method cell is part of the reciprocal-dedup key. So a (B, A) row whose methods were seen in the opposite order to those of an earlier (A, B) row keeps a different key, and it is kept. Python joins a set and normally iterates equal sets in one order, so it would normally drop that row. The key also takes every NaN method cell (`Missing`) as one value. That matches pandas while the aggregated method column still holds some text: its NaN cells are the one `np.nan` object that `aggregate_fields` returns, and a frozenset finds it by identity. When every aggregated method cell of the frame is NaN, pandas stores the column as float64, and each row's frozenset holds a fresh float NaN that equals no other. Then a (B, A) row after an (A, B) row keeps a different key and is kept, while the model drops it.
- Adapter11.MakeNodes: builds node properties with the corrected property builder of the finding below, not the one as written. With `node_fields` listing TAXON but not METHODS, the code would also give each node a "method" property; with METHODS but not TAXON, it would give none. `Adapter11.AsWrittenAgreesWhenBothOrNeither` states exactly when the two builders differ. The same holds for Adapter11.GetNodesSpec.
- The aggregation dictionary's entries for the two partner columns are not modelled. pandas uses them as group keys.
- TutorialAdapter.GetEdges: the type classification for prefixes reuses the integration adapter's classifier. The tutorial's `add_prefix_to_id` uses the same three patterns with `$` on RefSeq and the isoform group on UniProt, so the two agree.

## Findings

| source | as written | input that shows it | evidently intended | confidence | as-written member | corrected member |
|---|---|---|---|---|---|---|
| Create_IRefIndex_adapter_based_on_tutorial/template_package/adapters/IRefIndex_adapter_11.py:498-500 | the "method" property is gated on `IRefIndexEdgeFields.TAXON` | `fields=[METHODS]` gives no "method"; `fields=[TAXON]` gives one | "method" gated on `IRefIndexEdgeFields.METHODS`, like the other two properties | not executed | Adapter11.MethodFollowsTaxonAsWritten | Adapter11.GeneratePropertiesSpec |
