/**
 The data-frame stage shared by the tutorial adapter and adapter 11. The
 parsed records become a table whose columns are the selected fields and
 the two partners, renamed through a dictionary; the table is grouped by
 the ordered partner pair (first appearance order), cleared of reciprocal
 duplicates, and read off into per-identifier property maps and edge
 property dictionaries.

 A pandas frame is modelled as a sequence of rows; a cell holds a string
 or NaN (`Missing`).
 */
module Frames {
  import opened Wrappers
  import opened Seqs
  import opened Text
  import opened OrderedMaps
  import opened Records

  /** The record attributes a caller can select (the values of the field enums). */
  datatype Field = Pmid | Taxon | Method | RelationshipId

  /** The record attribute a field names. */
  function ValueOf(r: Record, f: Field): string {
    match f
    case Pmid => r.pmid
    case Taxon => r.taxon
    case Method => r.methodName
    case RelationshipId => r.relationshipId
  }

  /** `default_field_names`: the label a field gets when no new names are given. */
  function DefaultName(f: Field): string {
    match f
    case Pmid => "pubmed_ids"
    case Taxon => "taxon"
    case Method => "method"
    case RelationshipId => "relationship_id"
  }

  /** A column of the table: a selected field or one of the partner identifiers. */
  datatype Column = Selected(field: Field) | PartnerA | PartnerB

  /** `irefindex_field_new_names`: old column to new label, in insertion order. */
  type Labels = ODict<Column, string>

  datatype Error =
    | NoRecords                 // `irefindex_ints[0]` on an empty list: IndexError
    | RenameLengthMismatch      // the exception of the rename branch
    | DuplicateLabel            // two columns renamed to the same label
    | AggregationUndefined      // no aggregation flag set: `agg_dict` is unbound (NameError)
    | MissingColumn(name: string)   // a label looked up that no column has: KeyError
    | TaxonNotFound(taxon: string)  // the ValueError of the taxon check
    | UnboundLabel(id: string)  // `protein_type` read before any assignment (UnboundLocalError)

  // ---------------------------------------------------------------------
  // The rename dictionary
  // ---------------------------------------------------------------------

  /** The rename branch: the selected fields paired positionally with the new names. */
  function Renamed(selected: seq<Field>, names: seq<string>): (pairs: seq<(Column, string)>)
    requires |selected| == |names|
    ensures |pairs| == |selected|
    ensures forall i :: 0 <= i < |pairs| ==> pairs[i] == (Selected(selected[i]), names[i])
  {
    if selected == [] then [] else [(Selected(selected[0]), names[0])] + Renamed(selected[1..], names[1..])
  }

  /** The default branch: every selected field with its default label. */
  function Defaulted(selected: seq<Field>): (pairs: seq<(Column, string)>)
    ensures |pairs| == |selected|
    ensures forall i :: 0 <= i < |pairs| ==> pairs[i] == (Selected(selected[i]), DefaultName(selected[i]))
  {
    if selected == [] then [] else [(Selected(selected[0]), DefaultName(selected[0]))] + Defaulted(selected[1..])
  }

  /** Both branches end by mapping the partners to "uniprot_a" and "uniprot_b". */
  const PartnerLabels: seq<(Column, string)> := [(PartnerA, "uniprot_a"), (PartnerB, "uniprot_b")]

  const EmptyLabels: Labels := ODict([], map[])

  /** The pairs the rename dictionary is filled with, in order. */
  function LabelPairs(selected: seq<Field>, rename: seq<string>): (pairs: seq<(Column, string)>)
    requires rename == [] || |rename| == |selected|
  {
    (if rename != [] then Renamed(selected, rename) else Defaulted(selected)) + PartnerLabels
  }

  /**
   The rename dictionary of `get_nodes`. A non-empty list of new names
   (`rename_selected_fields`; empty stands for None as well) must have one
   name per selected field.
   */
  function FieldNewNames(selected: seq<Field>, rename: seq<string>): (r: Result<Labels, Error>)
    ensures r.Failure? <==> rename != [] && |rename| != |selected|
    ensures r.Failure? ==> r.error == RenameLengthMismatch
  {
    if rename != [] && |rename| != |selected| then Failure(RenameLengthMismatch)
    else Success(PutAll(EmptyLabels, LabelPairs(selected, rename)))
  }

  /** The position of the last occurrence of `x`. */
  ghost predicate IsLastIndex<T>(s: seq<T>, x: T, i: int) {
    0 <= i < |s| && s[i] == x && forall j :: i < j < |s| ==> s[j] != x
  }

  /** The fields of the pairs are the selected fields, followed by the two partners. */
  lemma {:induction false} LabelPairsKeys(selected: seq<Field>, rename: seq<string>)
    requires rename == [] || |rename| == |selected|
    ensures var keys := KeysOf(LabelPairs(selected, rename));
            |keys| == |selected| + 2 && keys[|selected|] == PartnerA && keys[|selected| + 1] == PartnerB
            && forall i :: 0 <= i < |selected| ==> keys[i] == Selected(selected[i])
  {
  }

  lemma {:induction false} LabelPairsHasField(selected: seq<Field>, rename: seq<string>, f: Field)
    requires rename == [] || |rename| == |selected|
    ensures Selected(f) in KeysOf(LabelPairs(selected, rename)) <==> f in selected
  {
    var keys := KeysOf(LabelPairs(selected, rename));
    LabelPairsKeys(selected, rename);
    if f in selected {
      var i :| 0 <= i < |selected| && selected[i] == f;
      assert keys[i] == Selected(f);
    }
  }

  /** The dictionary is well formed and labels the partners "uniprot_a" and "uniprot_b". */
  lemma {:induction false} FieldNewNamesPartners(selected: seq<Field>, rename: seq<string>)
    requires FieldNewNames(selected, rename).Success?
    ensures var labels := FieldNewNames(selected, rename).value;
            Valid(labels) && labels.entries[PartnerA] == "uniprot_a" && labels.entries[PartnerB] == "uniprot_b"
  {
    var pairs := LabelPairs(selected, rename);
    PutAllValid(EmptyLabels, pairs);
    LabelPairsEndWithPartners(selected, rename);
    AssignLastTwo(map[], pairs, PartnerA, "uniprot_a", PartnerB, "uniprot_b");
  }

  /** Both branches put the partners last: A, then B. */
  lemma {:induction false} LabelPairsEndWithPartners(selected: seq<Field>, rename: seq<string>)
    requires rename == [] || |rename| == |selected|
    ensures var pairs := LabelPairs(selected, rename);
            |pairs| >= 2 && pairs[|pairs| - 2] == (PartnerA, "uniprot_a") && pairs[|pairs| - 1] == (PartnerB, "uniprot_b")
  {
  }

  /**
   The dictionary labels exactly the selected fields. With new names, a
   field gets the name at the position of its LAST occurrence among the
   selected fields (a repeated field is overwritten); without, its default
   label.
   */
  lemma {:induction false} FieldNewNamesLabels(selected: seq<Field>, rename: seq<string>, f: Field)
    requires FieldNewNames(selected, rename).Success?
    ensures var labels := FieldNewNames(selected, rename).value;
            (Selected(f) in labels.entries <==> f in selected)
            && (rename == [] && f in selected ==> labels.entries[Selected(f)] == DefaultName(f))
            && (rename != [] && f in selected ==>
                  exists i :: IsLastIndex(selected, f, i) && labels.entries[Selected(f)] == rename[i])
  {
    var pairs := LabelPairs(selected, rename);
    LabelPairsHasField(selected, rename, f);
    AssignLastWins(map[], pairs, Selected(f));
    if f in selected {
      LabelPairsKeys(selected, rename);
      var i := LastIndexOfKey(pairs, Selected(f));
      assert KeysOf(pairs)[i] == Selected(f);
      assert i < |selected| && selected[i] == f;
      forall j | i < j < |selected| ensures selected[j] != f {
        assert KeysOf(pairs)[j] != Selected(f);
      }
      assert IsLastIndex(selected, f, i);
    }
  }

  /**
   The tutorial adapter selects its field list twice (as node and as edge
   fields): with new names, every field takes its name from the second half
   of the list, and the first half of the names is never used.
   */
  lemma {:induction false} DoubledSelectionUsesSecondHalf(fields: seq<Field>, rename: seq<string>, f: Field)
    requires |rename| == 2 * |fields| && rename != [] && f in fields
    ensures FieldNewNames(fields + fields, rename).Success?
    ensures Selected(f) in FieldNewNames(fields + fields, rename).value.entries
    ensures exists i :: IsLastIndex(fields, f, i)
                        && FieldNewNames(fields + fields, rename).value.entries[Selected(f)] == rename[|fields| + i]
  {
    var selected := fields + fields;
    FieldNewNamesLabels(selected, rename, f);
    var name := FieldNewNames(selected, rename).value.entries[Selected(f)];
    var i :| IsLastIndex(selected, f, i) && name == rename[i];
    LastIndexInDoubled(fields, f, i);
    assert rename[|fields| + (i - |fields|)] == name;
  }

  /** The last occurrence in a list written twice lies in its second copy. */
  lemma {:induction false} LastIndexInDoubled<T>(xs: seq<T>, x: T, i: int)
    requires x in xs && IsLastIndex(xs + xs, x, i)
    ensures |xs| <= i && IsLastIndex(xs, x, i - |xs|)
  {
    var n := |xs|;
    var k :| 0 <= k < n && xs[k] == x;
    assert (xs + xs)[n + k] == x;
    forall j | i - n < j < n ensures xs[j] != x {
      assert (xs + xs)[n + j] == xs[j];
    }
    assert (xs + xs)[i] == xs[i - n];
  }

  /** The labels in column order. */
  function LabelList(labels: Labels): (r: seq<string>)
    requires Valid(labels)
    ensures |r| == |labels.keys|
    ensures forall i :: 0 <= i < |r| ==> r[i] == labels.entries[labels.keys[i]]
  {
    MapSeq(labels.keys, c => if c in labels.entries then labels.entries[c] else [])
  }

  /**
   `rename` only yields a usable frame when no two columns end up with the
   same label. What that buys a later lookup by label (one column, the one
   renamed to it) is stated by `LookupUnique`.
   */
  function CheckLabels(labels: Labels): (r: Result<Labels, Error>)
    requires Valid(labels)
    ensures r.Success? <==> Distinct(LabelList(labels))
    ensures r.Success? ==> r.value == labels
  {
    if Distinct(LabelList(labels)) then Success(labels) else Failure(DuplicateLabel)
  }

  /** `frame[name]`: the column labelled `name`, or a KeyError. */
  function Lookup(labels: Labels, name: string): (r: Result<Column, Error>)
    requires Valid(labels)
    ensures r.Failure? <==> forall c :: c in labels.entries ==> labels.entries[c] != name
    ensures r.Failure? ==> r.error == MissingColumn(name)
    ensures r.Success? ==> r.value in labels.entries && labels.entries[r.value] == name
  {
    var names := LabelList(labels);
    if name in names then
      Success(labels.keys[FirstIndex(names, name)])
    else
      assert forall c :: c in labels.entries ==> labels.entries[c] in names by {
        forall c | c in labels.entries ensures labels.entries[c] in names {
          var i :| 0 <= i < |labels.keys| && labels.keys[i] == c;
          assert names[i] == labels.entries[c];
        }
      }
      Failure(MissingColumn(name))
  }

  /** With distinct labels the looked-up column is the only one carrying the label. */
  lemma {:induction false} LookupUnique(labels: Labels, name: string, c: Column)
    requires Valid(labels) && Distinct(LabelList(labels))
    requires c in labels.entries && labels.entries[c] == name
    ensures Lookup(labels, name) == Success(c)
  {
    var names := LabelList(labels);
    var i :| 0 <= i < |labels.keys| && labels.keys[i] == c;
    assert names[i] == name;
    var k := FirstIndex(names, name);
    assert names[k] == names[i];
    assert k == i;
  }

  // ---------------------------------------------------------------------
  // Aggregation and grouping
  // ---------------------------------------------------------------------

  /** A table cell: a string, or NaN. */
  datatype Cell = Text(s: string) | Missing

  /**
   `aggregate_fields`: the distinct values joined by '|', or NaN when that
   join is empty. The order in which the joined values appear is that of
   their first appearance (a Python set has no order of its own).
   */
  function Aggregate(values: seq<string>): Cell {
    var joined := Join(FirstOccurrences(values), '|');
    if joined == [] then Missing else Text(joined)
  }

  /**
   The aggregate is NaN exactly when every value is empty; otherwise it is
   the '|'-join of each distinct value once.
   */
  lemma {:induction false} AggregateSpec(values: seq<string>)
    ensures Aggregate(values).Missing? <==> forall i :: 0 <= i < |values| ==> values[i] == []
    ensures Aggregate(values).Text? ==>
              exists parts :: Distinct(parts) && (forall v :: v in parts <==> v in values)
                              && Aggregate(values).s == Join(parts, '|')
  {
    var parts := FirstOccurrences(values);
    JoinEmpty(parts, '|');
    if !forall i :: 0 <= i < |values| ==> values[i] == [] {
      var i :| 0 <= i < |values| && values[i] != [];
      assert values[i] in parts;
    }
  }

  /** When no value holds a '|', splitting the aggregate gives back the distinct values. */
  lemma {:induction false} AggregateSplits(values: seq<string>)
    requires forall i :: 0 <= i < |values| ==> '|' !in values[i]
    requires Aggregate(values).Text?
    ensures Split(Aggregate(values).s, '|') == FirstOccurrences(values)
    ensures forall v :: v in Split(Aggregate(values).s, '|') <==> v in values
  {
    var parts := FirstOccurrences(values);
    JoinEmpty(parts, '|');
    forall j | 0 <= j < |parts| ensures '|' !in parts[j] {
      assert parts[j] in values;
    }
    SplitJoin(parts, '|');
  }

  type Pair = (string, string)

  function PairOf(r: Record): Pair {
    (r.partnerA, r.partnerB)
  }

  /** The records of one pair, in input order. */
  function GroupOf(records: seq<Record>, k: Pair): (g: seq<Record>)
    ensures |g| <= |records|
  {
    if records == [] then []
    else (if PairOf(records[0]) == k then [records[0]] else []) + GroupOf(records[1..], k)
  }

  /** A pair's group holds exactly its records, and starts with the first of them. */
  lemma {:induction false} GroupOfSpec(records: seq<Record>, k: Pair)
    ensures forall r :: r in GroupOf(records, k) <==> r in records && PairOf(r) == k
    ensures k in MapSeq(records, PairOf) ==>
              GroupOf(records, k) != [] && GroupOf(records, k)[0] == records[FirstIndex(MapSeq(records, PairOf), k)]
    decreases |records|
  {
    if records != [] {
      GroupOfSpec(records[1..], k);
      var keys := MapSeq(records, PairOf);
      assert MapSeq(records[1..], PairOf) == keys[1..];
      assert forall r :: r in records <==> r == records[0] || r in records[1..];
      if k in keys && PairOf(records[0]) != k {
        assert k in keys[1..];
        assert FirstIndex(keys, k) == 1 + FirstIndex(keys[1..], k);
      }
    }
  }

  /** A grouped row: the pair and one cell per selected field. */
  datatype Row = Row(a: string, b: string, cells: map<Field, Cell>)

  function RowPair(row: Row): Pair {
    (row.a, row.b)
  }

  /** The fields `agg_dict` aggregates: the flagged ones among pmid and method. */
  function AggregatedFields(aggregatePmids: bool, aggregateMethods: bool): set<Field> {
    (if aggregatePmids then {Pmid} else {}) + (if aggregateMethods then {Method} else {})
  }

  /** One column of a group: the aggregate of its values, or "first", the first value. */
  function GroupCell(group: seq<Record>, f: Field, aggregated: bool): Cell {
    if aggregated then Aggregate(MapSeq(group, r => ValueOf(r, f)))
    else if group == [] then Missing
    else Text(ValueOf(group[0], f))
  }

  function GroupRow(records: seq<Record>, k: Pair, fields: set<Field>, aggregated: set<Field>): Row {
    var group := GroupOf(records, k);
    Row(k.0, k.1, map f | f in fields :: GroupCell(group, f, f in aggregated))
  }

  /** `groupby(["uniprot_a", "uniprot_b"], sort=False).aggregate(agg_dict)`. */
  function GroupBy(records: seq<Record>, fields: set<Field>, aggregated: set<Field>): seq<Row> {
    MapSeq(FirstOccurrences(MapSeq(records, PairOf)), k => GroupRow(records, k, fields, aggregated))
  }

  /**
   The grouped rows carry each pair of the records once, in order of first
   appearance.
   */
  lemma {:induction false} GroupByPairs(records: seq<Record>, fields: set<Field>, aggregated: set<Field>)
    ensures MapSeq(GroupBy(records, fields, aggregated), RowPair) == FirstOccurrences(MapSeq(records, PairOf))
    ensures Distinct(MapSeq(GroupBy(records, fields, aggregated), RowPair))
  {
    var keys := FirstOccurrences(MapSeq(records, PairOf));
    var rows := GroupBy(records, fields, aggregated);
    assert forall i :: 0 <= i < |keys| ==> MapSeq(rows, RowPair)[i] == keys[i];
  }

  /** Every grouped row belongs to a pair that occurs in the records. */
  lemma {:induction false} GroupByRowPair(records: seq<Record>, fields: set<Field>, aggregated: set<Field>, row: Row)
    requires row in GroupBy(records, fields, aggregated)
    ensures RowPair(row) in MapSeq(records, PairOf)
  {
    var rows := GroupBy(records, fields, aggregated);
    var t :| 0 <= t < |rows| && rows[t] == row;
    var keys := FirstOccurrences(MapSeq(records, PairOf));
    assert RowPair(row) == keys[t];
  }

  /**
   Each grouped row holds, for a selected field, the aggregate of the
   field's values over the pair's records when that field is aggregated,
   and the value of the pair's first record otherwise.
   */
  lemma {:induction false} GroupByCells(records: seq<Record>, fields: set<Field>, aggregated: set<Field>, t: nat, f: Field)
    requires t < |GroupBy(records, fields, aggregated)| && f in fields
    ensures var row := GroupBy(records, fields, aggregated)[t];
            var keys := MapSeq(records, PairOf);
            RowPair(row) in keys && f in row.cells
            && (f in aggregated ==>
                  row.cells[f] == Aggregate(MapSeq(GroupOf(records, RowPair(row)), r => ValueOf(r, f))))
            && (f !in aggregated ==>
                  row.cells[f] == Text(ValueOf(records[FirstIndex(keys, RowPair(row))], f)))
  {
    var keys := MapSeq(records, PairOf);
    var k := FirstOccurrences(keys)[t];
    assert k in keys;
    GroupOfSpec(records, k);
  }

  /** The values an aggregated cell is built from are those of the pair's records. */
  lemma {:induction false} GroupValues(records: seq<Record>, k: Pair, f: Field, v: string)
    ensures v in MapSeq(GroupOf(records, k), r => ValueOf(r, f))
            <==> exists i :: 0 <= i < |records| && PairOf(records[i]) == k && ValueOf(records[i], f) == v
  {
    if v in MapSeq(GroupOf(records, k), r => ValueOf(r, f)) {
      GroupValueFromRecord(records, k, f, v);
    }
    if exists i :: 0 <= i < |records| && PairOf(records[i]) == k && ValueOf(records[i], f) == v {
      var i :| 0 <= i < |records| && PairOf(records[i]) == k && ValueOf(records[i], f) == v;
      RecordValueInGroup(records, k, f, i);
    }
  }

  lemma {:induction false} GroupValueFromRecord(records: seq<Record>, k: Pair, f: Field, v: string)
    requires v in MapSeq(GroupOf(records, k), r => ValueOf(r, f))
    ensures exists i :: 0 <= i < |records| && PairOf(records[i]) == k && ValueOf(records[i], f) == v
  {
    var group := GroupOf(records, k);
    var vals := MapSeq(group, r => ValueOf(r, f));
    GroupOfSpec(records, k);
    var j :| 0 <= j < |vals| && vals[j] == v;
    assert group[j] in records;
    var i :| 0 <= i < |records| && records[i] == group[j];
  }

  lemma {:induction false} RecordValueInGroup(records: seq<Record>, k: Pair, f: Field, i: nat)
    requires i < |records| && PairOf(records[i]) == k
    ensures ValueOf(records[i], f) in MapSeq(GroupOf(records, k), r => ValueOf(r, f))
  {
    var group := GroupOf(records, k);
    var vals := MapSeq(group, r => ValueOf(r, f));
    GroupOfSpec(records, k);
    assert records[i] in group;
    var j :| 0 <= j < |group| && group[j] == records[i];
    assert vals[j] == ValueOf(records[i], f);
  }

  /** `drop_duplicates(subset=["uniprot_a", "uniprot_b"])` after the grouping drops nothing. */
  lemma {:induction false} DropDuplicatesAfterGroupBy(records: seq<Record>, fields: set<Field>, aggregated: set<Field>)
    ensures KeepFirst(GroupBy(records, fields, aggregated), RowPair) == GroupBy(records, fields, aggregated)
  {
    GroupByPairs(records, fields, aggregated);
    KeepFirstOfDistinct(GroupBy(records, fields, aggregated), RowPair);
  }

  // ---------------------------------------------------------------------
  // Reading cells by label
  // ---------------------------------------------------------------------

  function CellAt(row: Row, c: Column): Cell {
    match c
    case PartnerA => Text(row.a)
    case PartnerB => Text(row.b)
    case Selected(f) => if f in row.cells then row.cells[f] else Missing
  }

  /** The rows whose cell in column `c` is the string `v`, in order. */
  function RowsWith(rows: seq<Row>, c: Column, v: string): (kept: seq<Row>)
    ensures |kept| <= |rows|
    ensures forall row :: row in kept <==> row in rows && CellAt(row, c) == Text(v)
  {
    if rows == [] then []
    else
      var rest := RowsWith(rows[1..], c, v);
      assert forall row :: row in rows <==> row == rows[0] || row in rows[1..];
      if CellAt(rows[0], c) == Text(v) then [rows[0]] + rest else rest
  }

  /**
   The taxon check: a KeyError when no column is labelled "taxon", a
   ValueError when no row holds the requested taxon there, and otherwise
   the rows that hold it.
   */
  function TaxonCheck(labels: Labels, rows: seq<Row>, taxon: string): (r: Result<seq<Row>, Error>)
    requires Valid(labels)
  {
    match Lookup(labels, "taxon")
    case Failure(e) => Failure(e)
    case Success(c) =>
      var kept := RowsWith(rows, c, taxon);
      if kept == [] then Failure(TaxonNotFound(taxon)) else Success(kept)
  }

  /**
   The check fails with the ValueError exactly when the column exists and
   no row has the taxon; on success exactly the rows with that taxon are
   kept.
   */
  lemma {:induction false} TaxonCheckSpec(labels: Labels, rows: seq<Row>, taxon: string)
    requires Valid(labels)
    ensures Lookup(labels, "taxon").Failure? ==> TaxonCheck(labels, rows, taxon) == Failure(MissingColumn("taxon"))
    ensures Lookup(labels, "taxon").Success? ==>
              var c := Lookup(labels, "taxon").value;
              ((TaxonCheck(labels, rows, taxon) == Failure(TaxonNotFound(taxon)))
               <==> (forall i :: 0 <= i < |rows| ==> CellAt(rows[i], c) != Text(taxon)))
              && (TaxonCheck(labels, rows, taxon).Success? ==>
                    forall row :: row in TaxonCheck(labels, rows, taxon).value
                                  <==> row in rows && CellAt(row, c) == Text(taxon))
  {
    if Lookup(labels, "taxon").Success? {
      var c := Lookup(labels, "taxon").value;
      var kept := RowsWith(rows, c, taxon);
      if kept != [] {
        assert kept[0] in rows;
      }
      if exists i :: 0 <= i < |rows| && CellAt(rows[i], c) == Text(taxon) {
        var i :| 0 <= i < |rows| && CellAt(rows[i], c) == Text(taxon);
        assert rows[i] in kept;
      }
    }
  }

  /**
   The boolean mask keeps rows in order and with their multiplicity: the
   selection of a concatenation is the concatenation of the selections.
   */
  lemma {:induction false} RowsWithAppend(xs: seq<Row>, ys: seq<Row>, c: Column, v: string)
    ensures RowsWith(xs + ys, c, v) == RowsWith(xs, c, v) + RowsWith(ys, c, v)
    decreases |xs|
  {
    if xs == [] {
      assert xs + ys == ys;
    } else {
      assert (xs + ys)[0] == xs[0];
      assert (xs + ys)[1..] == xs[1..] + ys;
      RowsWithAppend(xs[1..], ys, c, v);
    }
  }

  /**
   A row holding the value sits in the selection right after the selection
   of the rows before it.
   */
  lemma {:induction false} RowsWithAt(rows: seq<Row>, c: Column, v: string, j: nat)
    requires j < |rows| && CellAt(rows[j], c) == Text(v)
    ensures var n := |RowsWith(rows[..j], c, v)|;
            n < |RowsWith(rows, c, v)| && RowsWith(rows, c, v)[n] == rows[j]
            && RowsWith(rows, c, v)[..n] == RowsWith(rows[..j], c, v)
  {
    var pre := rows[..j];
    var post := rows[j..];
    assert rows == pre + post;
    RowsWithAppend(pre, post, c, v);
    assert post[0] == rows[j];
    assert RowsWith(post, c, v) == [rows[j]] + RowsWith(post[1..], c, v);
  }

  /** Rows with distinct pairs: the rest have distinct pairs, none of them the first one's. */
  lemma {:induction false} DistinctPairsTail(rows: seq<Row>)
    requires rows != [] && Distinct(MapSeq(rows, RowPair))
    ensures Distinct(MapSeq(rows[1..], RowPair))
    ensures forall row :: row in rows[1..] ==> RowPair(row) != RowPair(rows[0])
  {
    var pairs := MapSeq(rows, RowPair);
    var tail := rows[1..];
    forall i, j | 0 <= i < j < |tail| ensures MapSeq(tail, RowPair)[i] != MapSeq(tail, RowPair)[j] {
      assert pairs[i + 1] != pairs[j + 1];
    }
    forall row | row in tail ensures RowPair(row) != RowPair(rows[0]) {
      var k :| 0 <= k < |tail| && tail[k] == row;
      assert pairs[k + 1] != pairs[0];
    }
  }

  /** A row whose pair none of `rows` has keeps the pairs distinct when put in front. */
  lemma {:induction false} DistinctPairsCons(row: Row, rows: seq<Row>)
    requires Distinct(MapSeq(rows, RowPair))
    requires forall other :: other in rows ==> RowPair(other) != RowPair(row)
    ensures Distinct(MapSeq([row] + rows, RowPair))
  {
    var f := [row] + rows;
    forall i, j | 0 <= i < j < |f| ensures MapSeq(f, RowPair)[i] != MapSeq(f, RowPair)[j] {
      assert f[j] == rows[j - 1];
      if i > 0 {
        assert MapSeq(rows, RowPair)[i - 1] != MapSeq(rows, RowPair)[j - 1];
      }
    }
  }

  /** Selecting rows with distinct pairs keeps the pairs distinct. */
  lemma {:induction false} RowsWithDistinct(rows: seq<Row>, c: Column, v: string)
    requires Distinct(MapSeq(rows, RowPair))
    ensures Distinct(MapSeq(RowsWith(rows, c, v), RowPair))
    decreases |rows|
  {
    if rows != [] {
      DistinctPairsTail(rows);
      RowsWithDistinct(rows[1..], c, v);
      if CellAt(rows[0], c) == Text(v) {
        DistinctPairsCons(rows[0], RowsWith(rows[1..], c, v));
      }
    }
  }

  // ---------------------------------------------------------------------
  // Reciprocal duplicates
  // ---------------------------------------------------------------------

  /**
   A cell as a set member. Every NaN is taken as the same value, as the one
   `np.nan` object of an object column is; a float column's NaNs, which
   equal nothing, are not modelled.
   */
  function Value(c: Cell): Option<string> {
    match c
    case Text(s) => Some(s)
    case Missing => None
  }

  /**
   The `frozenset` of a row: both partners and, when the method field is
   selected, its cell.
   */
  function DedupKey(labels: Labels, row: Row): set<Option<string>> {
    if Selected(Method) in labels.entries then {Some(row.a), Some(row.b), Value(CellAt(row, Selected(Method)))}
    else {Some(row.a), Some(row.b)}
  }

  /** `frame[~frame[cols].apply(frozenset, axis=1).duplicated()]`. */
  function ReciprocalDedup(labels: Labels, rows: seq<Row>): seq<Row> {
    KeepFirst(rows, row => DedupKey(labels, row))
  }

  /**
   A row is kept exactly when no earlier row has the same partner set (and
   method): a row stays iff its key is new, and every kept row is the first
   of its key.
   */
  lemma {:induction false} ReciprocalDedupKeepsFirst(labels: Labels, rows: seq<Row>, j: nat)
    requires j < |rows|
    requires Distinct(MapSeq(rows, RowPair))
    ensures rows[j] in ReciprocalDedup(labels, rows)
            <==> forall i :: 0 <= i < j ==> DedupKey(labels, rows[i]) != DedupKey(labels, rows[j])
  {
    var key := row => DedupKey(labels, row);
    if rows[j] in KeepFirst(rows, key) {
      DistinctRows(rows);
      KeepFirstKept(rows, key, j);
    } else {
      KeepFirstDropped(rows, key, j);
    }
  }

  /** Rows with distinct pairs are distinct. */
  lemma {:induction false} DistinctRows(rows: seq<Row>)
    requires Distinct(MapSeq(rows, RowPair))
    ensures Distinct(rows)
  {
    var pairs := MapSeq(rows, RowPair);
    forall i, j | 0 <= i < j < |rows| ensures rows[i] != rows[j] {
      assert pairs[i] != pairs[j];
    }
  }

  /** A pair seen before the other way round, with the same method, is dropped. */
  lemma {:induction false} ReversedPairIsDropped(labels: Labels, rows: seq<Row>, i: nat, j: nat)
    requires i < j < |rows|
    requires Distinct(MapSeq(rows, RowPair))
    requires rows[j].a == rows[i].b && rows[j].b == rows[i].a
    requires CellAt(rows[j], Selected(Method)) == CellAt(rows[i], Selected(Method))
    ensures rows[j] !in ReciprocalDedup(labels, rows)
  {
    assert DedupKey(labels, rows[i]) == DedupKey(labels, rows[j]);
    ReciprocalDedupKeepsFirst(labels, rows, j);
  }

  /** Every row the dedup keeps after the taxon mask holds the value. */
  lemma {:induction false} SelectedRowsHoldValue(labels: Labels, rows: seq<Row>, c: Column, v: string)
    ensures forall row :: row in ReciprocalDedup(labels, RowsWith(rows, c, v)) ==> CellAt(row, c) == Text(v)
  {
    var f := RowsWith(rows, c, v);
    var d := ReciprocalDedup(labels, f);
    forall row | row in d ensures CellAt(row, c) == Text(v) {
      var t :| 0 <= t < |d| && d[t] == row;
      assert d[t] in f;
    }
  }

  /** No row selected from `rows[..j]` has key `k` iff no earlier row holding the value has it. */
  lemma {:induction false} EarlierSelectedKeys(labels: Labels, rows: seq<Row>, c: Column, v: string, j: nat, k: set<Option<string>>)
    requires j <= |rows|
    ensures var p := RowsWith(rows[..j], c, v);
            (forall t :: 0 <= t < |p| ==> DedupKey(labels, p[t]) != k)
            <==> (forall i :: 0 <= i < j && CellAt(rows[i], c) == Text(v) ==> DedupKey(labels, rows[i]) != k)
  {
    var p := RowsWith(rows[..j], c, v);
    if forall i :: 0 <= i < j && CellAt(rows[i], c) == Text(v) ==> DedupKey(labels, rows[i]) != k {
      forall t | 0 <= t < |p| ensures DedupKey(labels, p[t]) != k {
        assert p[t] in p;
        var i :| 0 <= i < j && rows[..j][i] == p[t];
      }
    } else {
      var i :| 0 <= i < j && CellAt(rows[i], c) == Text(v) && DedupKey(labels, rows[i]) == k;
      assert rows[..j][i] == rows[i];
      assert rows[i] in p;
    }
  }

  /**
   For a row holding the value, the earlier rows of the selection are the
   earlier rows holding the value, so the dedup keeps it exactly when none
   of those has its key.
   */
  lemma {:induction false} SelectedRowKeptFirst(labels: Labels, rows: seq<Row>, c: Column, v: string, j: nat)
    requires Distinct(MapSeq(rows, RowPair)) && j < |rows| && CellAt(rows[j], c) == Text(v)
    ensures rows[j] in ReciprocalDedup(labels, RowsWith(rows, c, v))
            <==> forall i :: 0 <= i < j && CellAt(rows[i], c) == Text(v) ==>
                   DedupKey(labels, rows[i]) != DedupKey(labels, rows[j])
  {
    var f := RowsWith(rows, c, v);
    RowsWithDistinct(rows, c, v);
    RowsWithAt(rows, c, v, j);
    var p := RowsWith(rows[..j], c, v);
    var n := |p|;
    var key := DedupKey(labels, rows[j]);
    ReciprocalDedupKeepsFirst(labels, f, n);
    EarlierSelectedKeys(labels, rows, c, v, j, key);
    assert (forall t :: 0 <= t < n ==> DedupKey(labels, f[t]) != key)
           <==> (forall t :: 0 <= t < n ==> DedupKey(labels, p[t]) != key) by {
      forall t | 0 <= t < n ensures f[t] == p[t] {
        assert f[..n][t] == f[t];
      }
    }
  }

  /**
   The taxon check followed by the dedup: a grouped row survives exactly
   when it holds the value and no earlier row holding the value has its
   reciprocal-duplicate key, because the mask keeps the rows in order.
   */
  lemma {:induction false} SelectedDedupKeepsFirst(labels: Labels, rows: seq<Row>, c: Column, v: string, j: nat)
    requires Distinct(MapSeq(rows, RowPair)) && j < |rows|
    ensures rows[j] in ReciprocalDedup(labels, RowsWith(rows, c, v))
            <==> CellAt(rows[j], c) == Text(v)
                 && forall i :: 0 <= i < j && CellAt(rows[i], c) == Text(v) ==>
                      DedupKey(labels, rows[i]) != DedupKey(labels, rows[j])
  {
    if CellAt(rows[j], c) != Text(v) {
      SelectedRowsHoldValue(labels, rows, c, v);
    } else {
      SelectedRowKeptFirst(labels, rows, c, v, j);
    }
  }

  // ---------------------------------------------------------------------
  // Node property maps
  // ---------------------------------------------------------------------

  /** The identifiers of both partner columns. */
  function NodeIds(rows: seq<Row>): set<string> {
    (set row | row in rows :: row.a) + (set row | row in rows :: row.b)
  }

  /**
   `ids` lists the set `set(nodes_a) | set(nodes_b)` in some iteration
   order: each identifier of either partner column exactly once.
   */
  predicate EnumeratesNodeIds(rows: seq<Row>, ids: seq<string>) {
    Distinct(ids) && (forall x :: x in ids ==> x in NodeIds(rows)) && (forall x :: x in NodeIds(rows) ==> x in ids)
  }

  function SideA(rows: seq<Row>, c: Column): (kvs: seq<(string, Cell)>)
    ensures |kvs| == |rows|
    ensures forall i :: 0 <= i < |rows| ==> kvs[i] == (rows[i].a, CellAt(rows[i], c))
  {
    MapSeq(rows, (row: Row) => (row.a, CellAt(row, c)))
  }

  function SideB(rows: seq<Row>, c: Column): (kvs: seq<(string, Cell)>)
    ensures |kvs| == |rows|
    ensures forall i :: 0 <= i < |rows| ==> kvs[i] == (rows[i].b, CellAt(rows[i], c))
  {
    MapSeq(rows, (row: Row) => (row.b, CellAt(row, c)))
  }

  /** `d = dict(zip(frame["uniprot_a"], frame[label])); d.update(zip(frame["uniprot_b"], frame[label]))`. */
  function NodeMap(rows: seq<Row>, c: Column): map<string, Cell> {
    Assign(Assign(map[], SideA(rows, c)), SideB(rows, c))
  }

  /** All three node columns exist under their default labels. */
  predicate HasNodeColumns(labels: Labels)
    requires Valid(labels)
  {
    Lookup(labels, "taxon").Success? && Lookup(labels, "pubmed_ids").Success? && Lookup(labels, "method").Success?
  }

  /** Every listed identifier finds a value in each of the three node maps. */
  predicate ValuesPresent(t: Table, ids: seq<string>)
    requires Valid(t.labels) && HasNodeColumns(t.labels)
  {
    forall i :: 0 <= i < |ids| ==>
      Get(NodeMap(t.rows, Lookup(t.labels, "taxon").value), ids[i]).Some?
      && Get(NodeMap(t.rows, Lookup(t.labels, "pubmed_ids").value), ids[i]).Some?
      && Get(NodeMap(t.rows, Lookup(t.labels, "method").value), ids[i]).Some?
  }

  /** Some row has `id` as partner A. */
  predicate OnSideA(rows: seq<Row>, id: string) {
    exists i :: 0 <= i < |rows| && rows[i].a == id
  }

  /** Some row has `id` as partner B. */
  predicate OnSideB(rows: seq<Row>, id: string) {
    exists i :: 0 <= i < |rows| && rows[i].b == id
  }

  lemma {:induction false} SideAKeys(rows: seq<Row>, c: Column, id: string)
    ensures id in KeysOf(SideA(rows, c)) <==> OnSideA(rows, id)
  {
    var keys := KeysOf(SideA(rows, c));
    if OnSideA(rows, id) {
      var i :| 0 <= i < |rows| && rows[i].a == id;
      assert keys[i] == id;
    }
  }

  lemma {:induction false} SideBKeys(rows: seq<Row>, c: Column, id: string)
    ensures id in KeysOf(SideB(rows, c)) <==> OnSideB(rows, id)
  {
    var keys := KeysOf(SideB(rows, c));
    if OnSideB(rows, id) {
      var i :| 0 <= i < |rows| && rows[i].b == id;
      assert keys[i] == id;
    }
  }

  lemma {:induction false} NodeIdsSides(rows: seq<Row>, id: string)
    ensures id in NodeIds(rows) <==> OnSideA(rows, id) || OnSideB(rows, id)
  {
    if id in NodeIds(rows) {
      var row :| row in rows && (row.a == id || row.b == id);
      var i :| 0 <= i < |rows| && rows[i] == row;
    }
  }

  /** An identifier has a value exactly when it is a partner of some row. */
  lemma {:induction false} NodeMapDomain(rows: seq<Row>, c: Column, id: string)
    ensures id in NodeMap(rows, c) <==> id in NodeIds(rows)
  {
    AssignLastWins(map[], SideA(rows, c), id);
    AssignLastWins(Assign(map[], SideA(rows, c)), SideB(rows, c), id);
    SideAKeys(rows, c, id);
    SideBKeys(rows, c, id);
    NodeIdsSides(rows, id);
  }

  /**
   Last writer wins: an identifier's value comes from the last row where it
   is partner B, and only when it never is, from the last row where it is
   partner A.
   */
  lemma {:induction false} NodeMapLastWriter(rows: seq<Row>, c: Column, id: string)
    ensures id in NodeMap(rows, c) <==> id in NodeIds(rows)
    ensures OnSideB(rows, id) ==>
              id in NodeMap(rows, c)
              && exists i :: 0 <= i < |rows| && rows[i].b == id && NodeMap(rows, c)[id] == CellAt(rows[i], c)
                             && forall j :: i < j < |rows| ==> rows[j].b != id
    ensures !OnSideB(rows, id) && OnSideA(rows, id) ==>
              id in NodeMap(rows, c)
              && exists i :: 0 <= i < |rows| && rows[i].a == id && NodeMap(rows, c)[id] == CellAt(rows[i], c)
                             && forall j :: i < j < |rows| ==> rows[j].a != id
  {
    var sa := SideA(rows, c);
    var sb := SideB(rows, c);
    NodeMapDomain(rows, c, id);
    SideAKeys(rows, c, id);
    SideBKeys(rows, c, id);
    AssignLastWins(Assign(map[], sa), sb, id);
    if OnSideB(rows, id) {
      var i := LastIndexOfKey(sb, id);
      assert NodeMap(rows, c)[id] == CellAt(rows[i], c);
    } else if OnSideA(rows, id) {
      AssignLastWins(map[], sa, id);
      var i := LastIndexOfKey(sa, id);
      assert NodeMap(rows, c)[id] == CellAt(rows[i], c);
    }
  }

  // ---------------------------------------------------------------------
  // Edge properties
  // ---------------------------------------------------------------------

  /** An edge property value: a string or a list of strings. */
  datatype PropValue = Scalar(s: string) | List(items: seq<string>)

  /** `str(k).replace(" ", "_").lower()`. */
  function PropKey(heading: string): string {
    LowerAscii(ReplaceChar(heading, ' ', '_'))
  }

  /**
   The value transform of `get_edges`: NaN and the string "nan" are
   dropped; a string with a '|' becomes its '|'-pieces, anything else the
   string itself, both with `'` replaced by `^`.
   */
  function PropOf(c: Cell): Option<PropValue> {
    match c
    case Missing => None
    case Text(s) =>
      if s == "nan" then None
      else if '|' in s then Some(List(Split(ReplaceChar(s, '\'', '^'), '|')))
      else Some(Scalar(ReplaceChar(s, '\'', '^')))
  }

  /**
   A dropped value is NaN or "nan"; a list value joins back, with '|', to
   the escaped string and holds no `'`; a scalar is the escaped string of a
   value without '|'.
   */
  lemma {:induction false} PropOfSpec(c: Cell)
    ensures PropOf(c).None? <==> c.Missing? || c.s == "nan"
    ensures PropOf(c).Some? && PropOf(c).value.List? ==>
              c.Text? && '|' in c.s && Join(PropOf(c).value.items, '|') == ReplaceChar(c.s, '\'', '^')
              && forall i :: 0 <= i < |PropOf(c).value.items| ==> '\'' !in PropOf(c).value.items[i]
    ensures PropOf(c).Some? && PropOf(c).value.Scalar? ==>
              c.Text? && '|' !in c.s && PropOf(c).value.s == ReplaceChar(c.s, '\'', '^')
  {
    match c
    case Missing =>
    case Text(s) =>
      var e := ReplaceChar(s, '\'', '^');
      if s != "nan" && '|' in s {
        var k :| 0 <= k < |s| && s[k] == '|';
        assert e[k] == '|';
        JoinSplit(e, '|');
        forall i | 0 <= i < |Split(e, '|')| ensures '\'' !in Split(e, '|')[i] {
          SplitPieceChars(e, '|', i);
        }
      }
  }

  /**
   A cell aggregated from two or more distinct values without '|' or `'`
   turns back into exactly those values as a list.
   */
  lemma {:induction false} AggregatedCellBecomesList(parts: seq<string>)
    requires |parts| > 1
    requires forall i :: 0 <= i < |parts| ==> '|' !in parts[i] && '\'' !in parts[i]
    ensures PropOf(Text(Join(parts, '|'))) == Some(List(parts))
  {
    var s := Join(parts, '|');
    JoinHoldsSeparator(parts, '|');
    assert s != "nan" by {
      assert '|' !in "nan";
    }
    JoinWithoutChar(parts, '|', '\'');
    ReplaceAbsent(s, '\'', '^');
    SplitJoin(parts, '|');
  }

  /** The property pairs of a row, column by column, partners and dropped values left out. */
  function PropPairs(labels: Labels, cols: seq<Column>, row: Row): (kvs: seq<(string, PropValue)>)
    requires forall i :: 0 <= i < |cols| ==> cols[i] in labels.entries
    decreases |cols|
  {
    if cols == [] then []
    else
      var c := cols[0];
      var rest := PropPairs(labels, cols[1..], row);
      if c.Selected? && PropOf(CellAt(row, c)).Some? then
        [(PropKey(labels.entries[c]), PropOf(CellAt(row, c)).value)] + rest
      else rest
  }

  /**
   Every property pair comes from a selected column whose value is kept,
   and every such column contributes one.
   */
  lemma {:induction false} PropPairsSpec(labels: Labels, cols: seq<Column>, row: Row, kv: (string, PropValue))
    requires forall i :: 0 <= i < |cols| ==> cols[i] in labels.entries
    ensures kv in PropPairs(labels, cols, row)
            <==> exists i :: 0 <= i < |cols| && cols[i].Selected? && PropOf(CellAt(row, cols[i])) == Some(kv.1)
                             && PropKey(labels.entries[cols[i]]) == kv.0
    decreases |cols|
  {
    if cols != [] {
      PropPairsSpec(labels, cols[1..], row, kv);
      if exists i :: 0 <= i < |cols| && cols[i].Selected? && PropOf(CellAt(row, cols[i])) == Some(kv.1)
                     && PropKey(labels.entries[cols[i]]) == kv.0 {
        var i :| 0 <= i < |cols| && cols[i].Selected? && PropOf(CellAt(row, cols[i])) == Some(kv.1)
                 && PropKey(labels.entries[cols[i]]) == kv.0;
        if i > 0 {
          assert cols[1..][i - 1] == cols[i];
        }
      }
      if exists i :: 0 <= i < |cols[1..]| && cols[1..][i].Selected? && PropOf(CellAt(row, cols[1..][i])) == Some(kv.1)
                     && PropKey(labels.entries[cols[1..][i]]) == kv.0 {
        var i :| 0 <= i < |cols[1..]| && cols[1..][i].Selected? && PropOf(CellAt(row, cols[1..][i])) == Some(kv.1)
                 && PropKey(labels.entries[cols[1..][i]]) == kv.0;
        assert cols[i + 1] == cols[1..][i];
      }
    }
  }

  /** The `_props` dictionary of a row, filled in column order (a later equal key overwrites). */
  function EdgeProps(labels: Labels, row: Row): ODict<string, PropValue>
    requires Valid(labels)
  {
    PutAll(ODict([], map[]), PropPairs(labels, labels.keys, row))
  }

  /** Some selected column with a kept value has a label that maps to the key `k`. */
  predicate KeyFromColumn(labels: Labels, row: Row, k: string)
    requires Valid(labels)
  {
    exists i :: 0 <= i < |labels.keys| && labels.keys[i].Selected?
                && PropOf(CellAt(row, labels.keys[i])).Some?
                && PropKey(labels.entries[labels.keys[i]]) == k
  }

  /**
   A property key is present exactly when some selected column with a kept
   value maps to it, and its value is the transformed value of such a column.
   */
  lemma {:induction false} EdgePropsSpec(labels: Labels, row: Row, k: string)
    requires Valid(labels)
    ensures k in EdgeProps(labels, row).entries <==> KeyFromColumn(labels, row, k)
    ensures k in EdgeProps(labels, row).entries ==>
              exists i :: 0 <= i < |labels.keys| && labels.keys[i].Selected?
                          && PropOf(CellAt(row, labels.keys[i])) == Some(EdgeProps(labels, row).entries[k])
                          && PropKey(labels.entries[labels.keys[i]]) == k
  {
    var kvs := PropPairs(labels, labels.keys, row);
    AssignLastWins(map[], kvs, k);
    if k in KeysOf(kvs) {
      EdgePropsValue(labels, row, k);
    }
    if KeyFromColumn(labels, row, k) {
      ColumnGivesKey(labels, row, k);
    }
  }

  lemma {:induction false} EdgePropsValue(labels: Labels, row: Row, k: string)
    requires Valid(labels)
    requires k in KeysOf(PropPairs(labels, labels.keys, row))
    ensures var kvs := PropPairs(labels, labels.keys, row);
            exists i :: 0 <= i < |labels.keys| && labels.keys[i].Selected?
                        && PropOf(CellAt(row, labels.keys[i])) == Some(kvs[LastIndexOfKey(kvs, k)].1)
                        && PropKey(labels.entries[labels.keys[i]]) == k
  {
    var kvs := PropPairs(labels, labels.keys, row);
    var j := LastIndexOfKey(kvs, k);
    PropPairsSpec(labels, labels.keys, row, kvs[j]);
  }

  lemma {:induction false} ColumnGivesKey(labels: Labels, row: Row, k: string)
    requires Valid(labels)
    requires KeyFromColumn(labels, row, k)
    ensures k in KeysOf(PropPairs(labels, labels.keys, row))
  {
    var kvs := PropPairs(labels, labels.keys, row);
    var i :| 0 <= i < |labels.keys| && labels.keys[i].Selected?
             && PropOf(CellAt(row, labels.keys[i])).Some?
             && PropKey(labels.entries[labels.keys[i]]) == k;
    var kv := (k, PropOf(CellAt(row, labels.keys[i])).value);
    assert forall t :: 0 <= t < |labels.keys| ==> labels.keys[t] in labels.entries;
    PropPairsSpec(labels, labels.keys, row, kv);
    assert PropOf(CellAt(row, labels.keys[i])) == Some(kv.1);
    PairKeyIn(kvs, kv);
  }

  /** An edge as `get_edges` yields it; the edge id is always None. */
  datatype Edge = Edge(id: Option<string>, source: string, target: string, name: string, props: ODict<string, PropValue>)

  const DefaultEdgeLabel: string := "protein_protein_interaction"

  /** `get_edges`: one edge per row of the final table, with the partners prefixed by `prefix`. */
  function Edges(labels: Labels, rows: seq<Row>, prefix: string -> string, name: string): (edges: seq<Edge>)
    requires Valid(labels)
    ensures |edges| == |rows|
    ensures forall i :: 0 <= i < |rows| ==>
              edges[i].id == None && edges[i].source == prefix(rows[i].a) && edges[i].target == prefix(rows[i].b)
              && edges[i].name == name && edges[i].props == EdgeProps(labels, rows[i])
  {
    MapSeq(rows, (row: Row) => Edge(None, prefix(row.a), prefix(row.b), name, EdgeProps(labels, row)))
  }

  // ---------------------------------------------------------------------
  // The final table and its nodes
  // ---------------------------------------------------------------------

  /** The final table: its column labels and its rows. */
  datatype Table = Table(labels: Labels, rows: seq<Row>)

  /** The key of the reciprocal-duplicate check for a table's labels. */
  function KeyOf(labels: Labels): Row -> set<Option<string>> {
    row => DedupKey(labels, row)
  }

  /** A node as `get_nodes` yields it: identifier, label and properties. */
  datatype Node = Node(id: string, nodeLabel: string, props: ODict<string, Option<Cell>>)

  /** `if wanted: d[k] = v`. */
  function PutIf<V>(d: ODict<string, V>, wanted: bool, k: string, v: V): ODict<string, V> {
    if wanted then Put(d, k, v) else d
  }

  /** A conditional store keeps the dictionary well formed and changes at most key `k`. */
  lemma {:induction false} PutIfSpec<V>(d: ODict<string, V>, wanted: bool, k: string, v: V, x: string)
    requires Valid(d)
    ensures Valid(PutIf(d, wanted, k, v))
    ensures x in PutIf(d, wanted, k, v).entries <==> x in d.entries || (wanted && x == k)
    ensures wanted && x == k ==> PutIf(d, wanted, k, v).entries[x] == v
    ensures x != k && x in d.entries ==> PutIf(d, wanted, k, v).entries[x] == d.entries[x]
  {
    if wanted {
      PutValid(d, k, v);
    }
  }

  /** `d.get(id, None)`. */
  function Get(m: map<string, Cell>, id: string): Option<Cell> {
    if id in m then Some(m[id]) else None
  }

  /**
   Every identifier of the table has a value for each of the three
   properties: the cell of the last row where it is partner B, or failing
   that partner A.
   */
  lemma {:induction false} NodeValuesPresent(rows: seq<Row>, c: Column, id: string)
    requires id in NodeIds(rows)
    ensures Get(NodeMap(rows, c), id).Some?
    ensures exists i :: 0 <= i < |rows| && (rows[i].a == id || rows[i].b == id)
                        && Get(NodeMap(rows, c), id) == Some(CellAt(rows[i], c))
  {
    NodeMapLastWriter(rows, c, id);
    NodeIdsSides(rows, id);
  }

  /** When `ids` enumerates the table's identifiers, each of them finds all three node values. */
  lemma {:induction false} NodeColumnsPresent(t: Table, ids: seq<string>)
    requires Valid(t.labels) && HasNodeColumns(t.labels) && EnumeratesNodeIds(t.rows, ids)
    ensures ValuesPresent(t, ids)
  {
    forall i | 0 <= i < |ids|
      ensures Get(NodeMap(t.rows, Lookup(t.labels, "taxon").value), ids[i]).Some?
      ensures Get(NodeMap(t.rows, Lookup(t.labels, "pubmed_ids").value), ids[i]).Some?
      ensures Get(NodeMap(t.rows, Lookup(t.labels, "method").value), ids[i]).Some?
    {
      assert ids[i] in ids;
      NodeValuesPresent(t.rows, Lookup(t.labels, "taxon").value, ids[i]);
      NodeValuesPresent(t.rows, Lookup(t.labels, "pubmed_ids").value, ids[i]);
      NodeValuesPresent(t.rows, Lookup(t.labels, "method").value, ids[i]);
    }
  }

  /**
   The rows left by the filter and the dedup are grouped rows with distinct
   keys; rows of a list with distinct pairs keep distinct pairs.
   */
  lemma {:induction false} FinalRowsFromGroups(labels: Labels, grouped: seq<Row>, kept: seq<Row>, rows: seq<Row>)
    requires Distinct(MapSeq(grouped, RowPair))
    requires forall row :: row in kept ==> row in grouped
    requires rows == ReciprocalDedup(labels, kept)
    ensures forall i :: 0 <= i < |rows| ==> rows[i] in kept && rows[i] in grouped
    ensures Distinct(MapSeq(rows, RowPair))
    ensures Distinct(MapSeq(rows, KeyOf(labels)))
  {
    var key := KeyOf(labels);
    assert MapSeq(rows, key) == FirstOccurrences(MapSeq(kept, key));
    var gp := MapSeq(grouped, RowPair);
    forall i | 0 <= i < |rows| ensures rows[i] in kept {
      var f := FirstIndex(MapSeq(kept, key), key(rows[i]));
      assert rows[i] == kept[f];
    }
    var rp := MapSeq(rows, RowPair);
    forall i, j | 0 <= i < j < |rows| ensures rp[i] != rp[j] {
      assert MapSeq(rows, key)[i] != MapSeq(rows, key)[j];
      assert rows[i] in kept && rows[j] in kept;
      var p :| 0 <= p < |grouped| && grouped[p] == rows[i];
      var q :| 0 <= q < |grouped| && grouped[q] == rows[j];
      assert p != q;
      DistinctAt(gp, p, q);
    }
  }
}
