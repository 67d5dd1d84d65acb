/**
 Adapter 11 (`IRefIndex_adapter_11.py` of the tutorial-based package): the
 tutorial's pipeline with a wider blocklist, the edge fields selected once,
 no taxon filter and no drop of duplicate pairs, every node labelled
 "uniprot_protein" and prefixed "uniprot:" on edges.
 */
module Adapter11 {
  import opened Wrappers
  import opened Seqs
  import opened OrderedMaps
  import opened Text
  import opened Mitab
  import opened Records
  import opened Frames

  /** The constructor arguments the core depends on. */
  datatype Settings = Settings(
    fields: Option<seq<Field>>,   // `irefindex_fields`; None selects every edge field
    addPrefix: bool,
    aggregatePmids: bool,
    aggregateMethods: bool,
    proteinsWanted: bool,         // `PROTEIN in node_types`
    nodeFields: seq<Field>)       // `node_fields`, the empty list when not given

  /** `irefindex_process` on the lines of the input file. */
  function Process(lines: seq<string>): Result<seq<Record>, seq<string>> {
    ParseRecords(lines, ExtendedBlockedPrefixes)
  }

  /** Whatever the core blocklist drops, the wider one drops too; RefSeq and GenBank references are dropped as well. */
  lemma {:induction false} ExtendedBlocklistIsWider(reference: string)
    ensures Blocked(reference, CoreBlockedPrefixes) ==> Blocked(reference, ExtendedBlockedPrefixes)
    ensures StartsWith(reference, "refseq:") || StartsWith(reference, "dbj/embl/genbank:") ==>
              Blocked(reference, ExtendedBlockedPrefixes)
  {
    var core := CoreBlockedPrefixes;
    var wide := ExtendedBlockedPrefixes;
    if Blocked(reference, core) {
      var i :| 0 <= i < |core| && StartsWith(reference, core[i]);
      var j := if i == 0 then 0 else if i == 1 then 2 else 4;
      assert wide[j] == core[i];
    }
    if StartsWith(reference, "refseq:") {
      assert wide[1] == "refseq:";
    }
    if StartsWith(reference, "dbj/embl/genbank:") {
      assert wide[3] == "dbj/embl/genbank:";
    }
  }

  /** `set_edge_fields()`: the values of the given fields, or of every edge field. */
  function SelectedFields(fields: Option<seq<Field>>): seq<Field> {
    match fields
    case None => [Pmid, Taxon, Method, RelationshipId]
    case Some(list) => list
  }

  /**
   `get_nodes` up to `final_irefindex_ints`: the rename dictionary, then the
   frame checks, the grouping and the reciprocal-duplicate filter.
   */
  function FinalTable(s: Settings, records: seq<Record>, rename: seq<string>): (r: Result<Table, Error>) {
    var selected := SelectedFields(s.fields);
    match FieldNewNames(selected, rename)
    case Failure(e) => Failure(e)
    case Success(labels) =>
      FieldNewNamesPartners(selected, rename);
      FromLabels(s, records, labels)
  }

  /** The rows after the header grouped by partner pair over the selected fields. */
  function Grouped(s: Settings, records: seq<Record>): seq<Row> {
    var selected := SelectedFields(s.fields);
    GroupBy(WithoutHeader(records), (set f | f in selected), AggregatedFields(s.aggregatePmids, s.aggregateMethods))
  }

  /**
   Once the labels are known: an empty file, a repeated label and a missing
   aggregation flag are errors; otherwise the grouped rows are cleared of
   reciprocal duplicates.
   */
  function FromLabels(s: Settings, records: seq<Record>, labels: Labels): (r: Result<Table, Error>)
    requires Valid(labels)
  {
    if records == [] then Failure(NoRecords)
    else if CheckLabels(labels).Failure? then Failure(DuplicateLabel)
    else if !(s.aggregatePmids || s.aggregateMethods) then Failure(AggregationUndefined)
    else Success(Table(labels, ReciprocalDedup(labels, Grouped(s, records))))
  }

  /** The errors of the pipeline, in the order the source meets them; there is no taxon error here. */
  lemma {:induction false} FinalTableErrors(s: Settings, records: seq<Record>, rename: seq<string>)
    ensures var selected := SelectedFields(s.fields);
            rename != [] && |rename| != |selected| ==> FinalTable(s, records, rename) == Failure(RenameLengthMismatch)
    ensures var selected := SelectedFields(s.fields);
            (rename == [] || |rename| == |selected|) && records == [] ==> FinalTable(s, records, rename) == Failure(NoRecords)
    ensures var selected := SelectedFields(s.fields);
            ((rename == [] || |rename| == |selected|) && records != []
             && Valid(FieldNewNames(selected, rename).value)
             && Distinct(LabelList(FieldNewNames(selected, rename).value))) ==>
              (FinalTable(s, records, rename).Success? <==> s.aggregatePmids || s.aggregateMethods)
    ensures FinalTable(s, records, rename).Failure? ==>
              FinalTable(s, records, rename).error in {RenameLengthMismatch, NoRecords, DuplicateLabel, AggregationUndefined}
  {
    var selected := SelectedFields(s.fields);
    if rename == [] || |rename| == |selected| {
      FieldNewNamesPartners(selected, rename);
      var labels := FieldNewNames(selected, rename).value;
      assert FinalTable(s, records, rename) == FromLabels(s, records, labels);
    }
  }

  /** A successful pipeline is the filter applied to the grouped rows under the rename dictionary. */
  lemma {:induction false} FinalTableIsDeduplicated(s: Settings, records: seq<Record>, rename: seq<string>)
    returns (labels: Labels)
    requires FinalTable(s, records, rename).Success?
    ensures FieldNewNames(SelectedFields(s.fields), rename) == Success(labels) && Valid(labels)
    ensures FinalTable(s, records, rename) == Success(Table(labels, ReciprocalDedup(labels, Grouped(s, records))))
  {
    var selected := SelectedFields(s.fields);
    FieldNewNamesPartners(selected, rename);
    labels := FieldNewNames(selected, rename).value;
    assert FinalTable(s, records, rename) == FromLabels(s, records, labels);
    assert records != [] && CheckLabels(labels).Success? && (s.aggregatePmids || s.aggregateMethods);
  }

  /**
   On success every row is a grouped row of a pair of the records after
   the header, and no two rows share a partner pair or a
   reciprocal-duplicate key.
   */
  lemma {:induction false} FinalTableSpec(s: Settings, records: seq<Record>, rename: seq<string>)
    requires FinalTable(s, records, rename).Success?
    ensures var t := FinalTable(s, records, rename).value;
            var grouped := Grouped(s, records);
            Valid(t.labels)
            && (forall i :: 0 <= i < |t.rows| ==>
                  t.rows[i] in grouped && RowPair(t.rows[i]) in MapSeq(WithoutHeader(records), PairOf))
            && Distinct(MapSeq(t.rows, RowPair))
            && Distinct(MapSeq(t.rows, KeyOf(t.labels)))
  {
    var labels := FinalTableIsDeduplicated(s, records, rename);
    var body := WithoutHeader(records);
    var fields := set f | f in SelectedFields(s.fields);
    var aggregated := AggregatedFields(s.aggregatePmids, s.aggregateMethods);
    var grouped := GroupBy(body, fields, aggregated);
    assert grouped == Grouped(s, records);
    var rows := ReciprocalDedup(labels, grouped);
    GroupByPairs(body, fields, aggregated);
    FinalRowsFromGroups(labels, grouped, grouped, rows);
    forall i | 0 <= i < |rows| ensures RowPair(rows[i]) in MapSeq(body, PairOf) {
      GroupByRowPair(body, fields, aggregated, rows[i]);
    }
  }

  /** On success a grouped row is kept exactly when no earlier grouped row has its reciprocal-duplicate key. */
  lemma {:induction false} FinalTableKeepsFirst(s: Settings, records: seq<Record>, rename: seq<string>, j: nat)
    requires FinalTable(s, records, rename).Success? && j < |Grouped(s, records)|
    ensures var t := FinalTable(s, records, rename).value;
            var grouped := Grouped(s, records);
            grouped[j] in t.rows <==> forall i :: 0 <= i < j ==> KeyOf(t.labels)(grouped[i]) != KeyOf(t.labels)(grouped[j])
  {
    var labels := FinalTableIsDeduplicated(s, records, rename);
    var selected := SelectedFields(s.fields);
    GroupByPairs(WithoutHeader(records), (set f | f in selected), AggregatedFields(s.aggregatePmids, s.aggregateMethods));
    ReciprocalDedupKeepsFirst(labels, Grouped(s, records), j);
  }

  // ---------------------------------------------------------------------
  // Nodes
  // ---------------------------------------------------------------------

  /** The label of every node of this adapter. */
  const UniProtLabel: string := "uniprot_protein"

  /** The field is in the list handed to the node (never None from `get_nodes`). */
  predicate Listed(fields: Option<seq<Field>>, f: Field) {
    fields.Some? && f in fields.value
  }

  /**
   `Protein._generate_properties` as written: "pmid" under PUBMED_IDS,
   "taxon" under TAXON, and "method" under TAXON as well.
   */
  function GeneratePropertiesAsWritten(fields: Option<seq<Field>>, taxon: Option<Cell>, pmid: Option<Cell>, methods: Option<Cell>): ODict<string, Option<Cell>> {
    var withPmid := PutIf(ODict([], map[]), Listed(fields, Pmid), "pmid", pmid);
    var withTaxon := PutIf(withPmid, Listed(fields, Taxon), "taxon", taxon);
    PutIf(withTaxon, Listed(fields, Taxon), "method", methods)
  }

  /**
   As written, the method property follows the taxon field: asking for
   METHODS alone gives no "method", asking for TAXON alone gives one.
   */
  lemma {:induction false} MethodFollowsTaxonAsWritten(taxon: Option<Cell>, pmid: Option<Cell>, methods: Option<Cell>)
    ensures "method" !in GeneratePropertiesAsWritten(Some([Method]), taxon, pmid, methods).entries
    ensures "method" in GeneratePropertiesAsWritten(Some([Taxon]), taxon, pmid, methods).entries
  {
    assert Taxon !in [Method];
    assert "pmid" != "method" && "taxon" != "method";
  }

  /** `Protein._generate_properties` with the method property under METHODS, as intended. */
  function GenerateProperties(fields: Option<seq<Field>>, taxon: Option<Cell>, pmid: Option<Cell>, methods: Option<Cell>): ODict<string, Option<Cell>> {
    var withPmid := PutIf(ODict([], map[]), Listed(fields, Pmid), "pmid", pmid);
    var withTaxon := PutIf(withPmid, Listed(fields, Taxon), "taxon", taxon);
    PutIf(withTaxon, Listed(fields, Method), "method", methods)
  }

  /** The property name each node field stands for (the enum's value). */
  function PropertyName(f: Field): string {
    match f
    case Pmid => "pmid"
    case Taxon => "taxon"
    case Method => "method"
    case RelationshipId => "relationship_id"
  }

  /**
   Each property is present exactly when its field is listed, and holds the
   value passed for it; no other key (in particular no relationship id)
   appears.
   */
  lemma {:induction false} GeneratePropertiesSpec(fields: Option<seq<Field>>, taxon: Option<Cell>, pmid: Option<Cell>, methods: Option<Cell>, k: string)
    ensures var p := GenerateProperties(fields, taxon, pmid, methods);
            Valid(p)
            && (k in p.entries <==>
                  (k == PropertyName(Pmid) && Listed(fields, Pmid))
                  || (k == PropertyName(Taxon) && Listed(fields, Taxon))
                  || (k == PropertyName(Method) && Listed(fields, Method)))
            && (k == "pmid" && k in p.entries ==> p.entries[k] == pmid)
            && (k == "taxon" && k in p.entries ==> p.entries[k] == taxon)
            && (k == "method" && k in p.entries ==> p.entries[k] == methods)
  {
    var empty: ODict<string, Option<Cell>> := ODict([], map[]);
    var withPmid := PutIf(empty, Listed(fields, Pmid), "pmid", pmid);
    var withTaxon := PutIf(withPmid, Listed(fields, Taxon), "taxon", taxon);
    PutIfSpec(empty, Listed(fields, Pmid), "pmid", pmid, k);
    PutIfSpec(withPmid, Listed(fields, Taxon), "taxon", taxon, k);
    PutIfSpec(withTaxon, Listed(fields, Method), "method", methods, k);
    assert "pmid" != "taxon" && "taxon" != "method" && "pmid" != "method";
  }

  /** The two versions differ only when exactly one of TAXON and METHODS is listed. */
  lemma {:induction false} AsWrittenAgreesWhenBothOrNeither(fields: Option<seq<Field>>, taxon: Option<Cell>, pmid: Option<Cell>, methods: Option<Cell>)
    ensures (Listed(fields, Taxon) <==> Listed(fields, Method)) <==>
              GeneratePropertiesAsWritten(fields, taxon, pmid, methods) == GenerateProperties(fields, taxon, pmid, methods)
  {
    var withPmid := PutIf(ODict([], map[]), Listed(fields, Pmid), "pmid", pmid);
    var withTaxon := PutIf(withPmid, Listed(fields, Taxon), "taxon", taxon);
    assert "method" !in withTaxon.entries by {
      assert "pmid" != "method" && "taxon" != "method";
    }
    assert "method" in Put(withTaxon, "method", methods).entries;
  }

  /**
   `get_nodes` from the final table: the columns "taxon", "pubmed_ids" and
   "method" are read first (KeyError when missing); then, when proteins are
   wanted, one UniProt node per identifier in `ids`, the order in which the
   set of identifiers is iterated.
   */
  function GetNodes(s: Settings, t: Table, ids: seq<string>): (r: Result<seq<Node>, Error>)
    requires Valid(t.labels) && EnumeratesNodeIds(t.rows, ids)
  {
    match Lookup(t.labels, "taxon")
    case Failure(e) => Failure(e)
    case Success(tc) =>
      match Lookup(t.labels, "pubmed_ids")
      case Failure(e) => Failure(e)
      case Success(pc) =>
        match Lookup(t.labels, "method")
        case Failure(e) => Failure(e)
        case Success(mc) =>
          if !s.proteinsWanted then Success([])
          else Success(MakeNodes(t.rows, tc, pc, mc, s.nodeFields, ids))
  }

  /**
   One node per identifier, its properties looked up in the three node
   maps. Which row's value each lookup finds is stated by
   `Frames.NodeMapLastWriter`, and the resulting nodes by `GetNodesSpec`.
   */
  function MakeNodes(rows: seq<Row>, tc: Column, pc: Column, mc: Column, nodeFields: seq<Field>, ids: seq<string>): (nodes: seq<Node>)
    ensures |nodes| == |ids|
    ensures forall i :: 0 <= i < |ids| ==>
              nodes[i] == Node(ids[i], UniProtLabel,
                               GenerateProperties(Some(nodeFields), Get(NodeMap(rows, tc), ids[i]),
                                                  Get(NodeMap(rows, pc), ids[i]), Get(NodeMap(rows, mc), ids[i])))
  {
    var taxa := NodeMap(rows, tc);
    var pmids := NodeMap(rows, pc);
    var methodMap := NodeMap(rows, mc);
    seq(|ids|, i requires 0 <= i < |ids| =>
      Node(ids[i], UniProtLabel, GenerateProperties(Some(nodeFields), Get(taxa, ids[i]), Get(pmids, ids[i]), Get(methodMap, ids[i]))))
  }

  /**
   The node stage fails on the first missing column; otherwise it yields
   nothing when proteins are not wanted, and else one "uniprot_protein"
   node per identifier carrying the listed properties read from the table.
   */
  lemma {:induction false} GetNodesSpec(s: Settings, t: Table, ids: seq<string>)
    requires Valid(t.labels) && EnumeratesNodeIds(t.rows, ids)
    ensures Lookup(t.labels, "taxon").Failure? ==> GetNodes(s, t, ids) == Failure(MissingColumn("taxon"))
    ensures (Lookup(t.labels, "taxon").Success? && Lookup(t.labels, "pubmed_ids").Failure?) ==>
              GetNodes(s, t, ids) == Failure(MissingColumn("pubmed_ids"))
    ensures (Lookup(t.labels, "taxon").Success? && Lookup(t.labels, "pubmed_ids").Success?
             && Lookup(t.labels, "method").Failure?) ==> GetNodes(s, t, ids) == Failure(MissingColumn("method"))
    ensures GetNodes(s, t, ids).Success? <==>
              Lookup(t.labels, "taxon").Success? && Lookup(t.labels, "pubmed_ids").Success? && Lookup(t.labels, "method").Success?
    ensures GetNodes(s, t, ids).Success? && !s.proteinsWanted ==> GetNodes(s, t, ids).value == []
    ensures GetNodes(s, t, ids).Success? && s.proteinsWanted ==>
              var nodes := GetNodes(s, t, ids).value;
              |nodes| == |ids|
              && forall i :: 0 <= i < |ids| ==>
                   nodes[i].id == ids[i] && nodes[i].nodeLabel == UniProtLabel
                   && nodes[i].props == GenerateProperties(Some(s.nodeFields),
                        Get(NodeMap(t.rows, Lookup(t.labels, "taxon").value), ids[i]),
                        Get(NodeMap(t.rows, Lookup(t.labels, "pubmed_ids").value), ids[i]),
                        Get(NodeMap(t.rows, Lookup(t.labels, "method").value), ids[i]))
    ensures HasNodeColumns(t.labels) ==> ValuesPresent(t, ids)
  {
    if HasNodeColumns(t.labels) {
      NodeColumnsPresent(t, ids);
    }
  }

  /** With the default node fields (none) every node has an empty property map. */
  lemma {:induction false} DefaultNodesHaveNoProperties(taxon: Option<Cell>, pmid: Option<Cell>, methods: Option<Cell>)
    ensures GenerateProperties(Some([]), taxon, pmid, methods) == ODict([], map[])
  {
  }

  // ---------------------------------------------------------------------
  // Edges
  // ---------------------------------------------------------------------

  const UniProtPrefix: string := "uniprot:"

  /**
   `add_prefix_to_id` with its defaults: a non-empty identifier becomes the
   normalised "uniprot:" CURIE when prefixing is on; otherwise it is kept.
   */
  function AddUniProtPrefix(addPrefix: bool, id: string, normalize: string -> string): string {
    if addPrefix && id != [] then normalize(UniProtPrefix + id) else id
  }

  /**
   Without normalisation the prefixing is undone by dropping the first
   eight characters, and the result starts with "uniprot:" exactly when
   prefixing applied or the identifier already did.
   */
  lemma {:induction false} AddUniProtPrefixRoundTrip(addPrefix: bool, id: string)
    ensures var r := AddUniProtPrefix(addPrefix, id, x => x);
            (addPrefix && id != [] ==> |UniProtPrefix| <= |r| && r[..|UniProtPrefix|] == UniProtPrefix && r[|UniProtPrefix|..] == id)
            && (!addPrefix || id == [] ==> r == id)
  {
    var r := AddUniProtPrefix(addPrefix, id, x => x);
    if addPrefix && id != [] {
      assert r == UniProtPrefix + id;
    }
  }

  /** `get_edges`: one edge per row of the final table, the partners prefixed as UniProt identifiers. */
  function GetEdges(s: Settings, t: Table, normalize: string -> string, name: string): (e: seq<Edge>)
    requires Valid(t.labels)
    ensures |e| == |t.rows|
    ensures forall i :: 0 <= i < |t.rows| ==>
              e[i].id == None && e[i].name == name && e[i].props == EdgeProps(t.labels, t.rows[i])
    ensures forall i :: 0 <= i < |t.rows| && s.addPrefix && t.rows[i].a != [] ==>
              e[i].source == normalize(UniProtPrefix + t.rows[i].a)
    ensures forall i :: 0 <= i < |t.rows| && (!s.addPrefix || t.rows[i].a == []) ==> e[i].source == t.rows[i].a
    ensures forall i :: 0 <= i < |t.rows| && s.addPrefix && t.rows[i].b != [] ==>
              e[i].target == normalize(UniProtPrefix + t.rows[i].b)
    ensures forall i :: 0 <= i < |t.rows| && (!s.addPrefix || t.rows[i].b == []) ==> e[i].target == t.rows[i].b
  {
    Edges(t.labels, t.rows, id => AddUniProtPrefix(s.addPrefix, id, normalize), name)
  }
}
