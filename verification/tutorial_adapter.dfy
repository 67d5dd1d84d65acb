/**
 The tutorial adapter (`Tutorial/adapter/IRefIndex_adapter.py`): records
 parsed line by line, the first record taken as the header, the rest
 grouped by partner pair, restricted to one taxon, cleared of reciprocal
 duplicates; nodes are read off the final table with a label chosen by
 identifier shape, edges carry the remaining columns as properties.
 */
module TutorialAdapter {
  import opened Wrappers
  import opened Seqs
  import opened OrderedMaps
  import opened Patterns
  import opened ProteinTypes
  import opened Mitab
  import opened Records
  import opened Frames

  /** The constructor arguments the core depends on. */
  datatype Settings = Settings(
    fields: Option<seq<Field>>,   // `irefindex_fields`; None selects the defaults
    addPrefix: bool,
    aggregatePmids: bool,
    aggregateMethods: bool,
    proteinsWanted: bool)         // `PROTEIN_IREFINDEX in node_types`

  /** `irefindex_process` on the lines of the input file. */
  function Process(lines: seq<string>): Result<seq<Record>, seq<string>> {
    ParseRecords(lines, CoreBlockedPrefixes)
  }

  /**
   `set_node_fields() + set_edge_fields()`: the given list twice, or the
   three node fields followed by the edge field.
   */
  function SelectedFields(fields: Option<seq<Field>>): seq<Field> {
    match fields
    case None => [Pmid, Taxon, Method] + [RelationshipId]
    case Some(list) => list + list
  }

  /**
   `get_nodes` up to `final_irefindex_ints`: the rename dictionary, then the
   stages below, each with the error it raises.
   */
  function FinalTable(s: Settings, records: seq<Record>, rename: seq<string>, taxon: string): (r: Result<Table, Error>) {
    var selected := SelectedFields(s.fields);
    match FieldNewNames(selected, rename)
    case Failure(e) => Failure(e)
    case Success(labels) =>
      FieldNewNamesPartners(selected, rename);
      FromLabels(s, records, labels, taxon)
  }

  /** The rows after the header grouped by partner pair over the selected fields. */
  function Grouped(s: Settings, records: seq<Record>): seq<Row> {
    var selected := SelectedFields(s.fields);
    GroupBy(WithoutHeader(records), (set f | f in selected), AggregatedFields(s.aggregatePmids, s.aggregateMethods))
  }

  /**
   The frame checks once the labels are known: an empty file, a repeated
   label and a missing aggregation flag are errors; otherwise the grouped
   rows go through the taxon check and the reciprocal-duplicate filter.
   */
  function FromLabels(s: Settings, records: seq<Record>, labels: Labels, taxon: string): (r: Result<Table, Error>)
    requires Valid(labels)
  {
    if records == [] then Failure(NoRecords)
    else if CheckLabels(labels).Failure? then Failure(DuplicateLabel)
    else if !(s.aggregatePmids || s.aggregateMethods) then Failure(AggregationUndefined)
    else Filtered(labels, Grouped(s, records), taxon)
  }

  /** The taxon check followed by the reciprocal-duplicate filter. */
  function Filtered(labels: Labels, grouped: seq<Row>, taxon: string): (r: Result<Table, Error>)
    requires Valid(labels)
  {
    match TaxonCheck(labels, grouped, taxon)
    case Failure(e) => Failure(e)
    case Success(kept) => Success(Table(labels, ReciprocalDedup(labels, kept)))
  }

  /**
   The filter fails exactly as the taxon check does; on success every row
   holds the taxon, is one of the grouped rows, and no two rows share a
   partner pair or a reciprocal-duplicate key.
   */
  lemma {:induction false} FilteredSpec(labels: Labels, grouped: seq<Row>, taxon: string)
    requires Valid(labels) && Distinct(MapSeq(grouped, RowPair))
    ensures Lookup(labels, "taxon").Failure? ==> Filtered(labels, grouped, taxon) == Failure(MissingColumn("taxon"))
    ensures Lookup(labels, "taxon").Success? && Filtered(labels, grouped, taxon).Failure? ==>
              Filtered(labels, grouped, taxon) == Failure(TaxonNotFound(taxon))
    ensures Filtered(labels, grouped, taxon).Success? ==>
              var t := Filtered(labels, grouped, taxon).value;
              t.labels == labels && Lookup(labels, "taxon").Success?
              && (forall i :: 0 <= i < |t.rows| ==>
                    t.rows[i] in grouped && CellAt(t.rows[i], Lookup(labels, "taxon").value) == Text(taxon))
              && Distinct(MapSeq(t.rows, RowPair))
              && Distinct(MapSeq(t.rows, KeyOf(labels)))
  {
    TaxonCheckSpec(labels, grouped, taxon);
    if TaxonCheck(labels, grouped, taxon).Success? {
      var kept := TaxonCheck(labels, grouped, taxon).value;
      var rows := ReciprocalDedup(labels, kept);
      FinalRowsFromGroups(labels, grouped, kept, rows);
      forall i | 0 <= i < |rows| ensures CellAt(rows[i], Lookup(labels, "taxon").value) == Text(taxon) {
        assert rows[i] in kept;
      }
    }
  }

  /** The errors of the pipeline, in the order the source meets them. */
  lemma {:induction false} FinalTableErrors(s: Settings, records: seq<Record>, rename: seq<string>, taxon: string)
    ensures var selected := SelectedFields(s.fields);
            rename != [] && |rename| != |selected| ==> FinalTable(s, records, rename, taxon) == Failure(RenameLengthMismatch)
    ensures var selected := SelectedFields(s.fields);
            (rename == [] || |rename| == |selected|) && records == [] ==> FinalTable(s, records, rename, taxon) == Failure(NoRecords)
    ensures var selected := SelectedFields(s.fields);
            ((rename == [] || |rename| == |selected|) && records != []
             && Valid(FieldNewNames(selected, rename).value)
             && Distinct(LabelList(FieldNewNames(selected, rename).value))
             && !s.aggregatePmids && !s.aggregateMethods) ==> FinalTable(s, records, rename, taxon) == Failure(AggregationUndefined)
    ensures FinalTable(s, records, rename, taxon).Failure? ==>
              FinalTable(s, records, rename, taxon).error in
                {RenameLengthMismatch, NoRecords, DuplicateLabel, AggregationUndefined, MissingColumn("taxon"), TaxonNotFound(taxon)}
  {
    var selected := SelectedFields(s.fields);
    if rename == [] || |rename| == |selected| {
      FieldNewNamesPartners(selected, rename);
      var labels := FieldNewNames(selected, rename).value;
      assert FinalTable(s, records, rename, taxon) == FromLabels(s, records, labels, taxon);
      GroupByPairs(WithoutHeader(records), (set f | f in selected), AggregatedFields(s.aggregatePmids, s.aggregateMethods));
      FilteredSpec(labels, Grouped(s, records), taxon);
    }
  }

  /**
   On success every row holds the requested taxon in the column labelled
   "taxon", comes from a pair of the records after the header, and no two
   rows share a partner pair or a reciprocal-duplicate key.
   */
  lemma {:induction false} FinalTableSpec(s: Settings, records: seq<Record>, rename: seq<string>, taxon: string)
    requires FinalTable(s, records, rename, taxon).Success?
    ensures var t := FinalTable(s, records, rename, taxon).value;
            Valid(t.labels) && Lookup(t.labels, "taxon").Success?
            && (forall i :: 0 <= i < |t.rows| ==> CellAt(t.rows[i], Lookup(t.labels, "taxon").value) == Text(taxon))
            && (forall i :: 0 <= i < |t.rows| ==> RowPair(t.rows[i]) in MapSeq(WithoutHeader(records), PairOf))
            && Distinct(MapSeq(t.rows, RowPair))
            && Distinct(MapSeq(t.rows, KeyOf(t.labels)))
  {
    var labels := FinalTableIsFiltered(s, records, rename, taxon);
    var body := WithoutHeader(records);
    var fields := set f | f in SelectedFields(s.fields);
    var aggregated := AggregatedFields(s.aggregatePmids, s.aggregateMethods);
    var grouped := GroupBy(body, fields, aggregated);
    GroupByPairs(body, fields, aggregated);
    FilteredSpec(labels, grouped, taxon);
    var rows := Filtered(labels, grouped, taxon).value.rows;
    forall i | 0 <= i < |rows| ensures RowPair(rows[i]) in MapSeq(body, PairOf) {
      GroupByRowPair(body, fields, aggregated, rows[i]);
    }
  }

  /** A successful pipeline is the filter applied to the grouped rows under the rename dictionary. */
  lemma {:induction false} FinalTableIsFiltered(s: Settings, records: seq<Record>, rename: seq<string>, taxon: string)
    returns (labels: Labels)
    requires FinalTable(s, records, rename, taxon).Success?
    ensures FieldNewNames(SelectedFields(s.fields), rename) == Success(labels) && Valid(labels)
    ensures FinalTable(s, records, rename, taxon) == Filtered(labels, Grouped(s, records), taxon)
  {
    var selected := SelectedFields(s.fields);
    FieldNewNamesPartners(selected, rename);
    labels := FieldNewNames(selected, rename).value;
    var r := FromLabels(s, records, labels, taxon);
    assert FinalTable(s, records, rename, taxon) == r;
    assert records != [] && CheckLabels(labels).Success? && (s.aggregatePmids || s.aggregateMethods);
  }

  /** The row's cell in the column labelled "taxon" is the requested taxon. */
  ghost predicate HoldsTaxon(t: Table, row: Row, taxon: string) {
    Valid(t.labels) && Lookup(t.labels, "taxon").Success? && CellAt(row, Lookup(t.labels, "taxon").value) == Text(taxon)
  }

  /** The filter keeps a grouped row exactly when it holds the taxon and is the first holder of its key. */
  lemma {:induction false} FilteredKeepsFirst(labels: Labels, grouped: seq<Row>, taxon: string, j: nat)
    requires Valid(labels) && Distinct(MapSeq(grouped, RowPair)) && j < |grouped|
    requires Filtered(labels, grouped, taxon).Success?
    ensures var t := Filtered(labels, grouped, taxon).value;
            grouped[j] in t.rows
            <==> HoldsTaxon(t, grouped[j], taxon)
                 && forall i :: 0 <= i < j && HoldsTaxon(t, grouped[i], taxon) ==>
                      KeyOf(t.labels)(grouped[i]) != KeyOf(t.labels)(grouped[j])
  {
    var c := Lookup(labels, "taxon").value;
    var t := Filtered(labels, grouped, taxon).value;
    assert t == Table(labels, ReciprocalDedup(labels, RowsWith(grouped, c, taxon)));
    SelectedDedupKeepsFirst(labels, grouped, c, taxon, j);
  }

  /**
   Which grouped row survives: the taxon mask keeps the grouped rows in
   order, so a grouped row is in the final table exactly when it holds the
   taxon and no earlier grouped row holding the taxon has its frozenset key.
   */
  lemma {:induction false} FinalTableKeepsFirst(s: Settings, records: seq<Record>, rename: seq<string>, taxon: string, j: nat)
    requires FinalTable(s, records, rename, taxon).Success? && j < |Grouped(s, records)|
    ensures var t := FinalTable(s, records, rename, taxon).value;
            var grouped := Grouped(s, records);
            grouped[j] in t.rows
            <==> HoldsTaxon(t, grouped[j], taxon)
                 && forall i :: 0 <= i < j && HoldsTaxon(t, grouped[i], taxon) ==>
                      KeyOf(t.labels)(grouped[i]) != KeyOf(t.labels)(grouped[j])
  {
    var labels := FinalTableIsFiltered(s, records, rename, taxon);
    GroupByPairs(WithoutHeader(records), (set f | f in SelectedFields(s.fields)), AggregatedFields(s.aggregatePmids, s.aggregateMethods));
    FilteredKeepsFirst(labels, Grouped(s, records), taxon, j);
  }

  // ---------------------------------------------------------------------
  // Nodes
  // ---------------------------------------------------------------------

  /**
   The node classifier of `get_nodes`: its UniProt pattern has no isoform
   group and its RefSeq pattern no closing `$`.
   */
  function TutorialType(id: string): Option<string> {
    if UniProtMatch(id, false) then Some("uniprot_protein")
    else if RefSeqMatch(id, false) then Some("refseq_protein")
    else if EntrezMatch(id) then Some("entrez_protein")
    else None
  }

  /**
   The labels the node loop assigns. `protein_type` is only set when an
   identifier is classified, so an unclassified identifier takes the label
   of the one before it, and an unclassified first identifier reads the
   variable before any assignment.
   */
  function NodeLabels(ids: seq<string>, previous: Option<string>): (r: Result<seq<string>, Error>)
    ensures r.Failure? ==> r.error.UnboundLabel?
    ensures r.Success? ==> |r.value| == |ids|
    decreases |ids|
  {
    if ids == [] then Success([])
    else
      var current := if TutorialType(ids[0]).Some? then TutorialType(ids[0]) else previous;
      match current
      case None => Failure(UnboundLabel(ids[0]))
      case Some(name) =>
        match NodeLabels(ids[1..], current)
        case Failure(e) => Failure(e)
        case Success(rest) => Success([name] + rest)
  }

  /**
   The label in force after `ids`: that of the last classified identifier,
   or `fallback` when none is classified.
   */
  function LastTyped(ids: seq<string>, fallback: Option<string>): Option<string>
    decreases |ids|
  {
    if ids == [] then fallback
    else if TutorialType(ids[|ids| - 1]).Some? then TutorialType(ids[|ids| - 1])
    else LastTyped(ids[..|ids| - 1], fallback)
  }

  /** The label in force once the identifier at position `i` is scanned. */
  function InForce(ids: seq<string>, previous: Option<string>, i: nat): Option<string>
    requires i < |ids|
  {
    LastTyped(ids[..i + 1], previous)
  }

  /** Scanning the first identifier and then the rest is scanning the whole. */
  lemma {:induction false} LastTypedCons(ids: seq<string>, fallback: Option<string>)
    requires ids != []
    ensures LastTyped(ids, fallback) == LastTyped(ids[1..], LastTyped(ids[..1], fallback))
    decreases |ids|
  {
    if |ids| > 1 {
      var init := ids[..|ids| - 1];
      assert init[1..] == ids[1..][..|ids[1..]| - 1];
      assert init[..1] == ids[..1];
      LastTypedCons(init, fallback);
    } else {
      assert ids[1..] == [];
      assert ids[..1] == ids;
    }
  }

  /**
   The loop succeeds exactly when the first identifier has a label (its own
   or the previous one); each identifier then gets the label in force after
   it.
   */
  lemma {:induction false} NodeLabelsSpec(ids: seq<string>, previous: Option<string>)
    ensures NodeLabels(ids, previous).Success? <==> ids == [] || LastTyped(ids[..1], previous).Some?
    ensures NodeLabels(ids, previous).Success? ==>
              |NodeLabels(ids, previous).value| == |ids|
              && forall i :: 0 <= i < |ids| ==>
                   InForce(ids, previous, i).Some? && NodeLabels(ids, previous).value[i] == InForce(ids, previous, i).value
    decreases |ids|
  {
    if ids != [] {
      var current := FirstLabel(ids, previous);
      if current.Some? {
        var rest := ids[1..];
        NodeLabelsSpec(rest, current);
        if rest != [] {
          assert LastTyped(rest[..1], current).Some? by {
            assert rest[..1][..0] == [];
          }
        }
      }
      if NodeLabels(ids, previous).Success? {
        var labels := NodeLabels(ids, previous).value;
        forall i | 0 <= i < |ids| ensures InForce(ids, previous, i).Some? && labels[i] == InForce(ids, previous, i).value {
          NodeLabelAt(ids, previous, i);
        }
        assert 0 < |ids|;
        NodeLabelAt(ids, previous, 0);
        assert |labels| == |ids|;
      }
    }
  }

  /** The label the loop holds after the first identifier. */
  lemma {:induction false} FirstLabel(ids: seq<string>, previous: Option<string>) returns (current: Option<string>)
    requires ids != []
    ensures current == LastTyped(ids[..1], previous)
    ensures current == if TutorialType(ids[0]).Some? then TutorialType(ids[0]) else previous
    ensures current.None? ==> NodeLabels(ids, previous) == Failure(UnboundLabel(ids[0]))
    ensures current.Some? ==>
              NodeLabels(ids, previous) == match NodeLabels(ids[1..], current)
                                           case Failure(e) => Failure(e)
                                           case Success(rest) => Success([current.value] + rest)
  {
    current := if TutorialType(ids[0]).Some? then TutorialType(ids[0]) else previous;
    assert ids[..1][..0] == [];
  }

  /** The label of one identifier is the one in force after it. */
  lemma {:induction false} NodeLabelAt(ids: seq<string>, previous: Option<string>, i: nat)
    requires i < |ids| && NodeLabels(ids, previous).Success?
    ensures InForce(ids, previous, i).Some?
    ensures |NodeLabels(ids, previous).value| == |ids|
    ensures NodeLabels(ids, previous).value[i] == InForce(ids, previous, i).value
    decreases |ids|
  {
    var current := FirstLabel(ids, previous);
    var rest := ids[1..];
    var restLabels := NodeLabels(rest, current).value;
    if rest != [] {
      NodeLabelAt(rest, current, 0);
    }
    if i > 0 {
      NodeLabelAt(rest, current, i - 1);
      var pre := ids[..i + 1];
      LastTypedCons(pre, previous);
      assert pre[1..] == rest[..(i - 1) + 1];
      assert pre[..1] == ids[..1];
    }
  }

  /** Without a classified first identifier the loop fails on that identifier. */
  lemma {:induction false} UnclassifiedFirstIdFails(ids: seq<string>)
    requires ids != [] && TutorialType(ids[0]).None?
    ensures NodeLabels(ids, None) == Failure(UnboundLabel(ids[0]))
  {
  }

  /** The field list `get_nodes` gives every protein. */
  const NodeFieldNames: seq<string> := ["pubmed_ids", "taxon", "method"]

  /** A property name is wanted when no list is given or the list names it. */
  predicate Wanted(fields: Option<seq<string>>, name: string) {
    fields.None? || name in fields.value
  }

  /**
   `Protein._generate_properties`: each of the three properties whose name
   is listed in `fields`, or all three when `fields` is None, in the order
   pubmed_ids, taxon, method.
   */
  function GenerateProperties(fields: Option<seq<string>>, taxon: Option<Cell>, pmid: Option<Cell>, methods: Option<Cell>): ODict<string, Option<Cell>> {
    var withPmid := PutIf(ODict([], map[]), Wanted(fields, "pubmed_ids"), "pubmed_ids", pmid);
    var withTaxon := PutIf(withPmid, Wanted(fields, "taxon"), "taxon", taxon);
    PutIf(withTaxon, Wanted(fields, "method"), "method", methods)
  }

  /**
   A property is present exactly when its name is one of the three and
   listed (or no list is given), and it holds the value passed for it.
   */
  lemma {:induction false} GeneratePropertiesSpec(fields: Option<seq<string>>, taxon: Option<Cell>, pmid: Option<Cell>, methods: Option<Cell>, k: string)
    ensures Valid(GenerateProperties(fields, taxon, pmid, methods))
    ensures k in GenerateProperties(fields, taxon, pmid, methods).entries
            <==>
              || (k == "pubmed_ids" && Wanted(fields, k))
              || (k == "taxon" && Wanted(fields, k))
              || (k == "method" && Wanted(fields, k))
    ensures var p := GenerateProperties(fields, taxon, pmid, methods);
            && (k == "pubmed_ids" && k in p.entries ==> p.entries[k] == pmid)
            && (k == "taxon" && k in p.entries ==> p.entries[k] == taxon)
            && (k == "method" && k in p.entries ==> p.entries[k] == methods)
  {
    GeneratePropertiesKeys(fields, taxon, pmid, methods, k);
    GeneratePropertiesValues(fields, taxon, pmid, methods, k);
  }

  /** The key half of GeneratePropertiesSpec. */
  lemma {:induction false} GeneratePropertiesKeys(fields: Option<seq<string>>, taxon: Option<Cell>, pmid: Option<Cell>, methods: Option<Cell>, k: string)
    ensures Valid(GenerateProperties(fields, taxon, pmid, methods))
    ensures k in GenerateProperties(fields, taxon, pmid, methods).entries
            <==>
              || (k == "pubmed_ids" && Wanted(fields, k))
              || (k == "taxon" && Wanted(fields, k))
              || (k == "method" && Wanted(fields, k))
  {
    var empty: ODict<string, Option<Cell>> := ODict([], map[]);
    var withPmid := PutIf(empty, Wanted(fields, "pubmed_ids"), "pubmed_ids", pmid);
    var withTaxon := PutIf(withPmid, Wanted(fields, "taxon"), "taxon", taxon);
    PutIfSpec(empty, Wanted(fields, "pubmed_ids"), "pubmed_ids", pmid, k);
    PutIfSpec(withPmid, Wanted(fields, "taxon"), "taxon", taxon, k);
    PutIfSpec(withTaxon, Wanted(fields, "method"), "method", methods, k);
  }

  /** The value half of GeneratePropertiesSpec. */
  lemma {:induction false} GeneratePropertiesValues(fields: Option<seq<string>>, taxon: Option<Cell>, pmid: Option<Cell>, methods: Option<Cell>, k: string)
    ensures var p := GenerateProperties(fields, taxon, pmid, methods);
            && (k == "pubmed_ids" && k in p.entries ==> p.entries[k] == pmid)
            && (k == "taxon" && k in p.entries ==> p.entries[k] == taxon)
            && (k == "method" && k in p.entries ==> p.entries[k] == methods)
  {
    var empty: ODict<string, Option<Cell>> := ODict([], map[]);
    var withPmid := PutIf(empty, Wanted(fields, "pubmed_ids"), "pubmed_ids", pmid);
    var withTaxon := PutIf(withPmid, Wanted(fields, "taxon"), "taxon", taxon);
    PutIfSpec(empty, Wanted(fields, "pubmed_ids"), "pubmed_ids", pmid, k);
    PutIfSpec(withPmid, Wanted(fields, "taxon"), "taxon", taxon, k);
    PutIfSpec(withTaxon, Wanted(fields, "method"), "method", methods, k);
    assert "pubmed_ids" != "taxon" && "taxon" != "method" && "pubmed_ids" != "method";
  }

  /**
   `get_nodes` from the final table: the columns "taxon", "pubmed_ids" and
   "method" are read first (KeyError when missing); then, when proteins are
   wanted, one node per identifier in `ids`, the order in which the set of
   identifiers is iterated.
   */
  function GetNodes(s: Settings, t: Table, ids: seq<string>): (r: Result<seq<Node>, Error>)
    requires Valid(t.labels) && EnumeratesNodeIds(t.rows, ids)
  {
    match Lookup(t.labels, "taxon")
    case Failure(e) => Failure(e)
    case Success(tc) =>
      match Lookup(t.labels, "pubmed_ids")
      case Failure(e) => Failure(e)
      case Success(pc) =>
        match Lookup(t.labels, "method")
        case Failure(e) => Failure(e)
        case Success(mc) =>
          if !s.proteinsWanted then Success([])
          else
            match NodeLabels(ids, None)
            case Failure(e) => Failure(e)
            case Success(labels) => Success(MakeNodes(t.rows, tc, pc, mc, ids, labels))
  }

  /**
   One node per identifier, its properties looked up in the three node
   maps. Which row's value each lookup finds is stated by
   `Frames.NodeMapLastWriter`, and the resulting nodes by `GetNodesSpec`.
   */
  function MakeNodes(rows: seq<Row>, tc: Column, pc: Column, mc: Column, ids: seq<string>, labels: seq<string>): (nodes: seq<Node>)
    requires |labels| == |ids|
    ensures |nodes| == |ids|
    ensures forall i :: 0 <= i < |ids| ==>
              nodes[i] == Node(ids[i], labels[i],
                               GenerateProperties(Some(NodeFieldNames), Get(NodeMap(rows, tc), ids[i]),
                                                  Get(NodeMap(rows, pc), ids[i]), Get(NodeMap(rows, mc), ids[i])))
  {
    var taxa := NodeMap(rows, tc);
    var pmids := NodeMap(rows, pc);
    var methodMap := NodeMap(rows, mc);
    seq(|ids|, i requires 0 <= i < |ids| =>
      Node(ids[i], labels[i], GenerateProperties(Some(NodeFieldNames), Get(taxa, ids[i]), Get(pmids, ids[i]), Get(methodMap, ids[i]))))
  }

  /**
   The node stage fails on the first missing column, then on an
   unclassified first identifier; otherwise it yields one node per
   identifier, labelled by the last classification in force and carrying
   the three properties read from the table.
   */
  lemma {:induction false} GetNodesSpec(s: Settings, t: Table, ids: seq<string>)
    requires Valid(t.labels) && EnumeratesNodeIds(t.rows, ids)
    ensures Lookup(t.labels, "taxon").Failure? ==> GetNodes(s, t, ids) == Failure(MissingColumn("taxon"))
    ensures Lookup(t.labels, "taxon").Success? && Lookup(t.labels, "pubmed_ids").Failure? ==>
              GetNodes(s, t, ids) == Failure(MissingColumn("pubmed_ids"))
    ensures (Lookup(t.labels, "taxon").Success? && Lookup(t.labels, "pubmed_ids").Success?
             && Lookup(t.labels, "method").Failure?) ==> GetNodes(s, t, ids) == Failure(MissingColumn("method"))
    ensures HasNodeColumns(t.labels) && !s.proteinsWanted ==> GetNodes(s, t, ids) == Success([])
    ensures HasNodeColumns(t.labels) && s.proteinsWanted ==>
              (GetNodes(s, t, ids).Success? <==> ids == [] || TutorialType(ids[0]).Some?)
    ensures HasNodeColumns(t.labels) && s.proteinsWanted && GetNodes(s, t, ids).Success? ==>
              var nodes := GetNodes(s, t, ids).value;
              |nodes| == |ids|
              && forall i :: 0 <= i < |ids| ==>
                   nodes[i].id == ids[i]
                   && InForce(ids, None, i) == Some(nodes[i].nodeLabel)
                   && nodes[i].props == GenerateProperties(Some(NodeFieldNames),
                        Get(NodeMap(t.rows, Lookup(t.labels, "taxon").value), ids[i]),
                        Get(NodeMap(t.rows, Lookup(t.labels, "pubmed_ids").value), ids[i]),
                        Get(NodeMap(t.rows, Lookup(t.labels, "method").value), ids[i]))
    ensures HasNodeColumns(t.labels) ==> ValuesPresent(t, ids)
  {
    NodeLabelsSpec(ids, None);
    if ids != [] {
      assert ids[..1][..0] == [];
    }
    if HasNodeColumns(t.labels) {
      NodeColumnsPresent(t, ids);
    }
  }

  // ---------------------------------------------------------------------
  // Edges
  // ---------------------------------------------------------------------

  /**
   `get_edges`: one edge per row of the final table, the partners run
   through `add_prefix_to_id` (which classifies like the integration
   adapter's prefixing helper; `normalize_curie` is the parameter). With
   prefixing on, a non-empty identifier becomes the normalised
   `type:identifier` (an empty type for an unclassified one); otherwise it
   is kept as it is.
   */
  function GetEdges(s: Settings, t: Table, normalize: string -> string, name: string): (e: seq<Edge>)
    requires Valid(t.labels)
    ensures |e| == |t.rows|
    ensures forall i :: 0 <= i < |t.rows| ==>
              e[i].id == None && e[i].name == name && e[i].props == EdgeProps(t.labels, t.rows[i])
    ensures forall i :: 0 <= i < |t.rows| && s.addPrefix && t.rows[i].a != [] ==>
              e[i].source == normalize(PrefixFor(FindProteinType(t.rows[i].a)) + ":" + t.rows[i].a)
    ensures forall i :: 0 <= i < |t.rows| && (!s.addPrefix || t.rows[i].a == []) ==> e[i].source == t.rows[i].a
    ensures forall i :: 0 <= i < |t.rows| && s.addPrefix && t.rows[i].b != [] ==>
              e[i].target == normalize(PrefixFor(FindProteinType(t.rows[i].b)) + ":" + t.rows[i].b)
    ensures forall i :: 0 <= i < |t.rows| && (!s.addPrefix || t.rows[i].b == []) ==> e[i].target == t.rows[i].b
  {
    Edges(t.labels, t.rows, id => AddPrefixToIdentifier(s.addPrefix, id, normalize), name)
  }
}
