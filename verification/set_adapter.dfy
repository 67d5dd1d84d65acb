/**
 The integration adapter. Every MITAB line is split on tabs, dropped when a
 final reference carries a blocked prefix or the taxa miss the requested one,
 and otherwise folded into a dictionary of set-valued evidence keyed by the
 ordered partner pair. Nodes and edges are then read off that dictionary.
 */
module SetAdapter {
  import opened Wrappers
  import opened Seqs
  import opened Text
  import opened OrderedMaps
  import opened ProteinTypes
  import opened Mitab

  /** The evidence gathered for one ordered partner pair. */
  datatype Interaction = Interaction(
    partnerA: string,
    partnerB: string,
    pmid: set<string>,
    methods: set<string>,
    taxonA: set<string>,
    taxonB: set<string>,
    taxonId: set<string>,
    relationshipId: set<string>)

  type Pair = (string, string)

  /** The `interactions` dictionary: insertion-ordered pairs and their evidence. */
  type Store = ODict<Pair, Interaction>

  /** The taxon argument that switches the filter off. */
  const Wildcard: string := "*"

  datatype Error =
    | MalformedLine(line: string)      // fewer than 40 tab-separated fields: IndexError
    | MethodContainsSeparator(pair: Pair)  // the `assert "|" not in m` of the edge stream

  /** The columns whose non-empty values are collected as they come. */
  datatype Column = Methods | TaxaA | TaxaB | RelationshipIds

  function PairOf(e: Extracted): Pair {
    (e.partnerA, e.partnerB)
  }

  function Pick(e: Extracted, c: Column): string {
    match c
    case Methods => e.methodName
    case TaxaA => e.taxonA
    case TaxaB => e.taxonB
    case RelationshipIds => e.relationshipId
  }

  function Gathered(it: Interaction, c: Column): set<string> {
    match c
    case Methods => it.methods
    case TaxaA => it.taxonA
    case TaxaB => it.taxonB
    case RelationshipIds => it.relationshipId
  }

  /** `{v} if v != "" else set()`. */
  function NonEmpty(v: string): (r: set<string>)
    ensures "" !in r && r <= {v}
    ensures v != "" ==> v in r
  {
    if v == "" then {} else {v}
  }

  /** The taxon filter: everything passes "*", otherwise both taxa must be the requested one. */
  predicate Admitted(e: Extracted, taxon: string) {
    taxon == Wildcard || (e.taxonA == taxon && e.taxonB == taxon)
  }

  /** The first row of a pair: a blank PubMed id and empty values are left out. */
  function Create(e: Extracted, taxon: string): (it: Interaction)
    ensures it.partnerA == e.partnerA && it.partnerB == e.partnerB
    ensures forall c :: Gathered(it, c) == NonEmpty(Pick(e, c))
    ensures it.pmid <= {e.pmid} && (e.pmid in it.pmid <==> !IsBlank(e.pmid))
    ensures it.taxonId == {taxon}
  {
    Interaction(
      e.partnerA, e.partnerB,
      if IsBlank(e.pmid) then {} else {e.pmid},
      NonEmpty(e.methodName), NonEmpty(e.taxonA), NonEmpty(e.taxonB),
      {taxon},
      NonEmpty(e.relationshipId))
  }

  /** A later row of the same pair only adds to the sets; its PubMed id is added even when blank. */
  function Merge(it: Interaction, e: Extracted, taxon: string): (r: Interaction)
    ensures r.partnerA == it.partnerA && r.partnerB == it.partnerB
    ensures forall c :: Gathered(r, c) == Gathered(it, c) + NonEmpty(Pick(e, c))
    ensures r.pmid == it.pmid + {e.pmid}
    ensures r.taxonId == it.taxonId + NonEmpty(taxon)
  {
    it.(pmid := it.pmid + {e.pmid},
        methods := it.methods + NonEmpty(e.methodName),
        taxonA := it.taxonA + NonEmpty(e.taxonA),
        taxonB := it.taxonB + NonEmpty(e.taxonB),
        taxonId := it.taxonId + NonEmpty(taxon),
        relationshipId := it.relationshipId + NonEmpty(e.relationshipId))
  }

  /** Folds one admitted row into the dictionary. */
  function Absorb(store: Store, e: Extracted, taxon: string): (r: Store)
    ensures r.entries.Keys == store.entries.Keys + {PairOf(e)}
    ensures forall k :: k in store.entries && k != PairOf(e) ==> r.entries[k] == store.entries[k]
  {
    var k := PairOf(e);
    Put(store, k, if k in store.entries then Merge(store.entries[k], e, taxon) else Create(e, taxon))
  }

  /** What one well-formed line contributes: nothing when blocked or filtered out, else its row. */
  function RowOf(fields: seq<string>, taxon: string): (r: Option<Extracted>)
    requires |fields| >= MinFields
    ensures r.Some? <==> !LineBlocked(fields, CoreBlockedPrefixes) && Admitted(Extract(fields), taxon)
    ensures r.Some? ==> r.value == Extract(fields)
  {
    if LineBlocked(fields, CoreBlockedPrefixes) then None
    else
      var e := Extract(fields);
      if Admitted(e, taxon) then Some(e) else None
  }

  /** The rows a well-formed line contributes: its own, or none. */
  function Contribution(fields: seq<string>, taxon: string): (rows: seq<Extracted>)
    requires |fields| >= MinFields
    ensures |rows| <= 1
  {
    match RowOf(fields, taxon)
    case Some(e) => [e]
    case None => []
  }

  /** The dictionary after one well-formed line. */
  function Step(store: Store, fields: seq<string>, taxon: string): Store
    requires |fields| >= MinFields
  {
    match RowOf(fields, taxon)
    case Some(e) => Absorb(store, e, taxon)
    case None => store
  }

  /** The dictionary and, when a line had too few fields, the error raised there. */
  datatype Outcome = Outcome(store: Store, error: Option<Error>)

  /**
   `irefindex_process` on the lines of the file: lines are handled in order,
   and the first line with fewer than 40 fields stops the run, the dictionary
   keeping what the earlier lines put in.
   */
  function Process(store: Store, lines: seq<string>, taxon: string): Outcome
    decreases |lines|
  {
    if lines == [] then Outcome(store, None)
    else
      var fields := Fields(lines[0]);
      if |fields| < MinFields then Outcome(store, Some(MalformedLine(lines[0])))
      else Process(Step(store, fields, taxon), lines[1..], taxon)
  }

  const EmptyStore: Store := ODict([], map[])

  // ---------------------------------------------------------------------
  // Reference definitions: the rows that survive, and their fold.
  // ---------------------------------------------------------------------

  /** The rows that pass the blocklist and the taxon filter, in input order. */
  function Retained(lines: seq<string>, taxon: string): (rows: seq<Extracted>)
    requires WellFormedLines(lines)
    ensures |rows| <= |lines|
    ensures forall e :: e in rows ==> Admitted(e, taxon)
  {
    if lines == [] then []
    else Contribution(Fields(lines[0]), taxon) + Retained(lines[1..], taxon)
  }

  /** The rows of all lines whose references are not blocked, ignoring the taxa. */
  function Unblocked(lines: seq<string>): seq<Extracted>
    requires WellFormedLines(lines)
  {
    if lines == [] then []
    else
      var fields := Fields(lines[0]);
      var rest := Unblocked(lines[1..]);
      if LineBlocked(fields, CoreBlockedPrefixes) then rest else [Extract(fields)] + rest
  }

  /** The rows folded in order, as a left fold written from the last row. */
  function FoldRows(store: Store, rows: seq<Extracted>, taxon: string): Store {
    if rows == [] then store
    else Absorb(FoldRows(store, rows[..|rows| - 1], taxon), rows[|rows| - 1], taxon)
  }

  /** The non-empty values of column `c` over the rows of pair `k`. */
  ghost function Evidence(rows: seq<Extracted>, k: Pair, c: Column): set<string> {
    set e | e in rows && PairOf(e) == k && Pick(e, c) != "" :: Pick(e, c)
  }

  /**
   The PubMed ids of pair `k`: the first row's when it is not blank, and every
   later row's, blank or not.
   */
  ghost function PmidEvidence(rows: seq<Extracted>, k: Pair): set<string>
    requires k in MapSeq(rows, PairOf)
  {
    var f := FirstIndex(MapSeq(rows, PairOf), k);
    (if IsBlank(rows[f].pmid) then {} else {rows[f].pmid}) + LaterPmids(rows, f, k)
  }

  /** The PubMed ids of the rows of pair `k` after position `f`. */
  ghost function LaterPmids(rows: seq<Extracted>, f: nat, k: Pair): set<string> {
    set i | f < i < |rows| && PairOf(rows[i]) == k :: rows[i].pmid
  }

  /** The interaction a pair's rows add up to. */
  ghost function Expected(rows: seq<Extracted>, k: Pair, taxon: string): Interaction
    requires k in MapSeq(rows, PairOf)
  {
    Interaction(k.0, k.1, PmidEvidence(rows, k),
                Evidence(rows, k, Methods), Evidence(rows, k, TaxaA), Evidence(rows, k, TaxaB),
                {taxon}, Evidence(rows, k, RelationshipIds))
  }

  // ---------------------------------------------------------------------
  // Lemmas
  // ---------------------------------------------------------------------

  /** Folding a first row and then the rest is folding the whole. */
  lemma {:induction false} FoldRowsCons(store: Store, e: Extracted, rows: seq<Extracted>, taxon: string)
    ensures FoldRows(store, [e] + rows, taxon) == FoldRows(Absorb(store, e, taxon), rows, taxon)
    decreases |rows|
  {
    if rows == [] {
      assert [e] + rows == [e];
      assert [e][..0] == [];
      calc {
        FoldRows(store, [e], taxon);
        Absorb(FoldRows(store, [], taxon), e, taxon);
      }
    } else {
      var init := rows[..|rows| - 1];
      var last := rows[|rows| - 1];
      var whole := [e] + rows;
      assert whole[..|whole| - 1] == [e] + init;
      assert whole[|whole| - 1] == last;
      FoldRowsCons(store, e, init, taxon);
      calc {
        FoldRows(store, whole, taxon);
        Absorb(FoldRows(store, [e] + init, taxon), last, taxon);
        Absorb(FoldRows(Absorb(store, e, taxon), init, taxon), last, taxon);
        FoldRows(Absorb(store, e, taxon), rows, taxon);
      }
    }
  }

  /** Folding a line's contribution and then more rows is folding after its step. */
  lemma {:induction false} FoldRowsStep(store: Store, fields: seq<string>, rows: seq<Extracted>, taxon: string)
    requires |fields| >= MinFields
    ensures FoldRows(store, Contribution(fields, taxon) + rows, taxon) == FoldRows(Step(store, fields, taxon), rows, taxon)
  {
    match RowOf(fields, taxon)
    case Some(e) => FoldRowsCons(store, e, rows, taxon);
    case None => assert [] + rows == rows;
  }

  /** When every line has its 40 fields, the run folds exactly the retained rows and raises nothing. */
  lemma {:induction false} ProcessFoldsRetainedRows(store: Store, lines: seq<string>, taxon: string)
    requires WellFormedLines(lines)
    ensures Process(store, lines, taxon) == Outcome(FoldRows(store, Retained(lines, taxon), taxon), None)
    decreases |lines|
  {
    if lines != [] {
      var fields := Fields(lines[0]);
      WellFormedTail(lines);
      ProcessFoldsRetainedRows(Step(store, fields, taxon), lines[1..], taxon);
      FoldRowsStep(store, fields, Retained(lines[1..], taxon), taxon);
    }
  }

  /**
   Otherwise the run stops at the first short line with an error, having
   folded the rows retained before it.
   */
  lemma {:induction false} ProcessStopsAtFirstMalformed(store: Store, lines: seq<string>, taxon: string)
    requires !WellFormedLines(lines)
    ensures var n := FirstMalformed(lines);
            Process(store, lines, taxon)
            == Outcome(FoldRows(store, Retained(lines[..n], taxon), taxon), Some(MalformedLine(lines[n])))
    decreases |lines|
  {
    var fields := Fields(lines[0]);
    var n := FirstMalformed(lines);
    if |fields| < MinFields {
      assert n == 0 && lines[..0] == [];
    } else {
      var rest := lines[1..];
      ProcessStopsAtFirstMalformed(Step(store, fields, taxon), rest, taxon);
      assert n == 1 + FirstMalformed(rest);
      assert lines[..n][0] == lines[0] && lines[..n][1..] == rest[..n - 1];
      assert rest[n - 1] == lines[n];
      FoldRowsStep(store, fields, Retained(rest[..n - 1], taxon), taxon);
    }
  }

  /** A line whose final reference A or B carries a blocked prefix leaves the dictionary as it was. */
  lemma {:induction false} BlockedLineIsSkipped(store: Store, line: string, rest: seq<string>, taxon: string)
    requires |Fields(line)| >= MinFields && LineBlocked(Fields(line), CoreBlockedPrefixes)
    ensures Process(store, [line] + rest, taxon) == Process(store, rest, taxon)
  {
    assert ([line] + rest)[0] == line && ([line] + rest)[1..] == rest;
  }

  /** With the wildcard no row is filtered for its taxa. */
  lemma {:induction false} WildcardKeepsUnblockedRows(lines: seq<string>)
    requires WellFormedLines(lines)
    ensures Retained(lines, Wildcard) == Unblocked(lines)
    decreases |lines|
  {
    if lines != [] {
      WellFormedTail(lines);
      WildcardKeepsUnblockedRows(lines[1..]);
    }
  }

  lemma {:induction false} EvidenceSnoc(rows: seq<Extracted>, x: Extracted, k: Pair, c: Column)
    ensures Evidence(rows + [x], k, c)
            == Evidence(rows, k, c) + (if PairOf(x) == k then NonEmpty(Pick(x, c)) else {})
  {
    assert forall e :: e in rows + [x] <==> e in rows || e == x;
  }

  lemma {:induction false} LaterPmidsSnoc(rows: seq<Extracted>, x: Extracted, f: nat, k: Pair)
    requires f < |rows|
    ensures LaterPmids(rows + [x], f, k) == LaterPmids(rows, f, k) + (if PairOf(x) == k then {x.pmid} else {})
  {
    var ext := rows + [x];
    forall v | v in LaterPmids(ext, f, k)
      ensures v in LaterPmids(rows, f, k) + (if PairOf(x) == k then {x.pmid} else {})
    {
      var i :| f < i < |ext| && PairOf(ext[i]) == k && ext[i].pmid == v;
      if i < |rows| {
        assert ext[i] == rows[i];
      }
    }
    forall v | v in LaterPmids(rows, f, k)
      ensures v in LaterPmids(ext, f, k)
    {
      var i :| f < i < |rows| && PairOf(rows[i]) == k && rows[i].pmid == v;
      assert ext[i] == rows[i];
    }
    if PairOf(x) == k {
      assert ext[|rows|] == x;
    }
  }

  lemma {:induction false} PmidEvidenceSnoc(rows: seq<Extracted>, x: Extracted, k: Pair)
    requires k in MapSeq(rows, PairOf)
    ensures k in MapSeq(rows + [x], PairOf)
    ensures PmidEvidence(rows + [x], k)
            == PmidEvidence(rows, k) + (if PairOf(x) == k then {x.pmid} else {})
  {
    var ks := MapSeq(rows, PairOf);
    assert MapSeq(rows + [x], PairOf) == ks + [PairOf(x)];
    FirstIndexOfPrefix(ks, [PairOf(x)], k);
    var f := FirstIndex(ks, k);
    assert (rows + [x])[f] == rows[f];
    LaterPmidsSnoc(rows, x, f, k);
  }

  lemma {:induction false} PmidEvidenceOfNewPair(rows: seq<Extracted>, x: Extracted)
    requires PairOf(x) !in MapSeq(rows, PairOf)
    ensures PairOf(x) in MapSeq(rows + [x], PairOf)
    ensures PmidEvidence(rows + [x], PairOf(x)) == if IsBlank(x.pmid) then {} else {x.pmid}
  {
    var ks := MapSeq(rows, PairOf);
    assert MapSeq(rows + [x], PairOf) == ks + [PairOf(x)];
    assert (ks + [PairOf(x)])[..|rows|] == ks;
    FirstIndexIs(ks + [PairOf(x)], PairOf(x), |rows|);
    assert (rows + [x])[|rows|] == x;
    assert LaterPmids(rows + [x], |rows|, PairOf(x)) == {};
  }

  lemma {:induction false} EvidenceOfNewPair(rows: seq<Extracted>, k: Pair, c: Column)
    requires k !in MapSeq(rows, PairOf)
    ensures Evidence(rows, k, c) == {}
  {
    forall e | e in rows ensures PairOf(e) != k {
      var i :| 0 <= i < |rows| && rows[i] == e;
      assert MapSeq(rows, PairOf)[i] == PairOf(e);
    }
  }

  /** An entry whose pair the new row does not carry keeps what its pair's rows add up to. */
  lemma {:induction false} EntryStepOther(init: seq<Extracted>, x: Extracted, taxon: string, k: Pair)
    requires k in MapSeq(init, PairOf) && k != PairOf(x)
    ensures k in MapSeq(init + [x], PairOf)
    ensures Expected(init + [x], k, taxon) == Expected(init, k, taxon)
  {
    PmidEvidenceSnoc(init, x, k);
    EvidenceSnoc(init, x, k, Methods);
    EvidenceSnoc(init, x, k, TaxaA);
    EvidenceSnoc(init, x, k, TaxaB);
    EvidenceSnoc(init, x, k, RelationshipIds);
  }

  /** A later row of a known pair merges into what the earlier rows add up to. */
  lemma {:induction false} EntryStepMerge(init: seq<Extracted>, x: Extracted, taxon: string)
    requires PairOf(x) in MapSeq(init, PairOf)
    ensures PairOf(x) in MapSeq(init + [x], PairOf)
    ensures Expected(init + [x], PairOf(x), taxon) == Merge(Expected(init, PairOf(x), taxon), x, taxon)
  {
    var k := PairOf(x);
    PmidEvidenceSnoc(init, x, k);
    EvidenceSnoc(init, x, k, Methods);
    EvidenceSnoc(init, x, k, TaxaA);
    EvidenceSnoc(init, x, k, TaxaB);
    EvidenceSnoc(init, x, k, RelationshipIds);
    var m := Merge(Expected(init, k, taxon), x, taxon);
    assert m.taxonId == {taxon};
    assert m.methods == Gathered(m, Methods);
    assert m.taxonA == Gathered(m, TaxaA);
    assert m.taxonB == Gathered(m, TaxaB);
    assert m.relationshipId == Gathered(m, RelationshipIds);
  }

  /** The first row of a pair creates what that one row adds up to. */
  lemma {:induction false} EntryStepCreate(init: seq<Extracted>, x: Extracted, taxon: string)
    requires PairOf(x) !in MapSeq(init, PairOf)
    ensures PairOf(x) in MapSeq(init + [x], PairOf)
    ensures Expected(init + [x], PairOf(x), taxon) == Create(x, taxon)
  {
    var k := PairOf(x);
    PmidEvidenceOfNewPair(init, x);
    EvidenceOfNewPair(init, k, Methods);
    EvidenceOfNewPair(init, k, TaxaA);
    EvidenceOfNewPair(init, k, TaxaB);
    EvidenceOfNewPair(init, k, RelationshipIds);
    EvidenceSnoc(init, x, k, Methods);
    EvidenceSnoc(init, x, k, TaxaA);
    EvidenceSnoc(init, x, k, TaxaB);
    EvidenceSnoc(init, x, k, RelationshipIds);
    var c := Create(x, taxon);
    assert c.methods == Gathered(c, Methods);
    assert c.taxonA == Gathered(c, TaxaA);
    assert c.taxonB == Gathered(c, TaxaB);
    assert c.relationshipId == Gathered(c, RelationshipIds);
  }

  /** One more row keeps entry `k` equal to what its pair's rows add up to. */
  lemma {:induction false} AbsorbEntry(before: Store, rows: seq<Extracted>, taxon: string, k: Pair)
    requires rows != []
    requires var init := rows[..|rows| - 1];
             (k in before.entries <==> k in MapSeq(init, PairOf))
             && (k in before.entries ==> before.entries[k] == Expected(init, k, taxon))
    requires var init := rows[..|rows| - 1]; var p := PairOf(rows[|rows| - 1]);
             (p in before.entries <==> p in MapSeq(init, PairOf))
             && (p in before.entries ==> before.entries[p] == Expected(init, p, taxon))
    requires k in Absorb(before, rows[|rows| - 1], taxon).entries
    ensures k in MapSeq(rows, PairOf)
    ensures Absorb(before, rows[|rows| - 1], taxon).entries[k] == Expected(rows, k, taxon)
  {
    var init := rows[..|rows| - 1];
    var x := rows[|rows| - 1];
    assert rows == init + [x];
    if k != PairOf(x) {
      EntryStepOther(init, x, taxon, k);
    } else if k in before.entries {
      EntryStepMerge(init, x, taxon);
    } else {
      EntryStepCreate(init, x, taxon);
    }
  }

  lemma {:induction false} FoldRowsLast(rows: seq<Extracted>, taxon: string)
    requires rows != []
    ensures FoldRows(EmptyStore, rows, taxon)
            == Absorb(FoldRows(EmptyStore, rows[..|rows| - 1], taxon), rows[|rows| - 1], taxon)
  {
  }

  lemma {:induction false} PairsLast(rows: seq<Extracted>)
    requires rows != []
    ensures MapSeq(rows, PairOf) == MapSeq(rows[..|rows| - 1], PairOf) + [PairOf(rows[|rows| - 1])]
  {
  }

  /** One more row keeps the key list and the map in step, the keys in first-appearance order. */
  lemma {:induction false} AbsorbShape(before: Store, ks: seq<Pair>, x: Extracted, taxon: string)
    requires Valid(before) && before.keys == FirstOccurrences(ks)
    requires forall k :: k in before.entries <==> k in ks
    ensures Valid(Absorb(before, x, taxon))
    ensures Absorb(before, x, taxon).keys == FirstOccurrences(ks + [PairOf(x)])
    ensures forall k :: k in Absorb(before, x, taxon).entries <==> k in ks + [PairOf(x)]
  {
    var k := PairOf(x);
    var v := if k in before.entries then Merge(before.entries[k], x, taxon) else Create(x, taxon);
    assert Absorb(before, x, taxon) == Put(before, k, v);
    PutValid(before, k, v);
    AppendNewSnoc([], ks, k);
  }

  /** The dictionary built from rows has one key per distinct ordered pair, in first-appearance order. */
  lemma {:induction false} FoldKeys(rows: seq<Extracted>, taxon: string)
    ensures Valid(FoldRows(EmptyStore, rows, taxon))
    ensures FoldRows(EmptyStore, rows, taxon).keys == FirstOccurrences(MapSeq(rows, PairOf))
    ensures forall k :: k in FoldRows(EmptyStore, rows, taxon).entries <==> k in MapSeq(rows, PairOf)
    decreases |rows|
  {
    if rows == [] {
      assert MapSeq(rows, PairOf) == [];
    } else {
      var init := rows[..|rows| - 1];
      FoldKeys(init, taxon);
      FoldRowsLast(rows, taxon);
      PairsLast(rows);
      AbsorbShape(FoldRows(EmptyStore, init, taxon), MapSeq(init, PairOf), rows[|rows| - 1], taxon);
    }
  }

  /**
   Each entry of the dictionary built from rows gathers the non-empty values
   of its pair's rows, and its PubMed ids as `PmidEvidence` says.
   */
  lemma {:induction false} FoldEntries(rows: seq<Extracted>, taxon: string, k: Pair)
    requires k in MapSeq(rows, PairOf)
    ensures k in FoldRows(EmptyStore, rows, taxon).entries
    ensures FoldRows(EmptyStore, rows, taxon).entries[k] == Expected(rows, k, taxon)
    decreases |rows|
  {
    FoldKeys(rows, taxon);
    var init := rows[..|rows| - 1];
    var x := rows[|rows| - 1];
    FoldRowsLast(rows, taxon);
    PairsLast(rows);
    FoldKeys(init, taxon);
    if k in MapSeq(init, PairOf) {
      FoldEntries(init, taxon, k);
    }
    if PairOf(x) in MapSeq(init, PairOf) {
      FoldEntries(init, taxon, PairOf(x));
    }
    AbsorbEntry(FoldRows(EmptyStore, init, taxon), rows, taxon, k);
  }

  /** Evidence sets depend only on which rows there are, not on their order. */
  lemma {:induction false} EvidenceIgnoresOrder(rows: seq<Extracted>, rows': seq<Extracted>, k: Pair, c: Column)
    requires multiset(rows) == multiset(rows')
    ensures Evidence(rows, k, c) == Evidence(rows', k, c)
  {
    assert forall e :: e in rows <==> e in multiset(rows);
    assert forall e :: e in rows' <==> e in multiset(rows');
  }

  /** Method, taxa and relationship ids never hold the empty string. */
  lemma {:induction false} NoEmptyEvidence(rows: seq<Extracted>, k: Pair, c: Column)
    ensures "" !in Evidence(rows, k, c)
  {
  }

  lemma {:induction false} FoldTwoRows(a: Extracted, b: Extracted, taxon: string)
    ensures FoldRows(EmptyStore, [a, b], taxon) == Absorb(Absorb(EmptyStore, a, taxon), b, taxon)
  {
    FoldRowsLast([a, b], taxon);
    assert [a, b][..1] == [a];
    FoldRowsLast([a], taxon);
    assert [a][..0] == [];
  }

  /**
   The PubMed ids, however, do depend on row order: for two rows of one pair,
   a blank id is dropped when its row comes first and kept when it comes later.
   */
  lemma {:induction false} PmidDependsOnRowOrder(blank: Extracted, cited: Extracted, taxon: string)
    requires PairOf(blank) == PairOf(cited)
    requires IsBlank(blank.pmid) && !IsBlank(cited.pmid)
    ensures FoldRows(EmptyStore, [blank, cited], taxon).entries[PairOf(cited)].pmid == {cited.pmid}
    ensures FoldRows(EmptyStore, [cited, blank], taxon).entries[PairOf(cited)].pmid == {cited.pmid, blank.pmid}
  {
    BlankPmidFirst(blank, cited, taxon);
    BlankPmidLast(blank, cited, taxon);
  }

  /** A blank PubMed id in the first row of a pair is dropped. */
  lemma {:induction false} BlankPmidFirst(blank: Extracted, cited: Extracted, taxon: string)
    requires PairOf(blank) == PairOf(cited)
    requires IsBlank(blank.pmid) && !IsBlank(cited.pmid)
    ensures FoldRows(EmptyStore, [blank, cited], taxon).entries[PairOf(cited)].pmid == {cited.pmid}
  {
    FoldTwoRows(blank, cited, taxon);
    var b1 := Absorb(EmptyStore, blank, taxon);
    AbsorbPmid(EmptyStore, blank, taxon);
    AbsorbPmid(b1, cited, taxon);
  }

  /** A blank PubMed id in a later row of a pair is kept. */
  lemma {:induction false} BlankPmidLast(blank: Extracted, cited: Extracted, taxon: string)
    requires PairOf(blank) == PairOf(cited)
    requires IsBlank(blank.pmid) && !IsBlank(cited.pmid)
    ensures FoldRows(EmptyStore, [cited, blank], taxon).entries[PairOf(cited)].pmid == {cited.pmid, blank.pmid}
  {
    FoldTwoRows(cited, blank, taxon);
    var c1 := Absorb(EmptyStore, cited, taxon);
    AbsorbPmid(EmptyStore, cited, taxon);
    AbsorbPmid(c1, blank, taxon);
  }

  /** The PubMed ids of a row's pair after absorbing it. */
  lemma {:induction false} AbsorbPmid(store: Store, e: Extracted, taxon: string)
    ensures PairOf(e) in Absorb(store, e, taxon).entries
    ensures Absorb(store, e, taxon).entries[PairOf(e)].pmid
            == if PairOf(e) in store.entries then store.entries[PairOf(e)].pmid + {e.pmid}
               else if IsBlank(e.pmid) then {} else {e.pmid}
  {
  }

  /** A pair and its reverse are separate entries. */
  lemma {:induction false} ReversedPairIsSeparate(e: Extracted, taxon: string)
    requires e.partnerA != e.partnerB
    ensures var r := e.(partnerA := e.partnerB, partnerB := e.partnerA);
            FoldRows(EmptyStore, [e, r], taxon).keys == [PairOf(e), PairOf(r)]
  {
    var r := e.(partnerA := e.partnerB, partnerB := e.partnerA);
    TwoRowKeys(e, r, taxon);
  }

  /** The keys left by two rows: one pair if they share it, else both in order. */
  lemma {:induction false} TwoRowKeys(a: Extracted, b: Extracted, taxon: string)
    ensures FoldRows(EmptyStore, [a, b], taxon).keys
            == if PairOf(a) == PairOf(b) then [PairOf(a)] else [PairOf(a), PairOf(b)]
  {
    FoldTwoRows(a, b, taxon);
    AbsorbTwiceKeys(a, b, taxon);
  }

  /** Two absorbed rows leave one key if they share a pair, else both keys in order. */
  lemma {:induction false} AbsorbTwiceKeys(a: Extracted, b: Extracted, taxon: string)
    ensures Absorb(Absorb(EmptyStore, a, taxon), b, taxon).keys
            == if PairOf(a) == PairOf(b) then [PairOf(a)] else [PairOf(a), PairOf(b)]
  {
    AbsorbKeys(EmptyStore, a, taxon);
    AbsorbKeys(Absorb(EmptyStore, a, taxon), b, taxon);
  }

  /** Absorbing a row appends its pair to the key order unless the pair is already there. */
  lemma {:induction false} AbsorbKeys(store: Store, e: Extracted, taxon: string)
    ensures Absorb(store, e, taxon).keys
            == if PairOf(e) in store.keys then store.keys else store.keys + [PairOf(e)]
  {
    AppendNewOne(store.keys, PairOf(e));
  }

  // ---------------------------------------------------------------------
  // Nodes
  // ---------------------------------------------------------------------

  /** A node as `get_nodes` yields it: identifier, label and '|'-joined properties as sets. */
  datatype Node = Node(id: string, name: string, pubmedIds: set<string>, taxonIds: set<string>, methods: set<string>)

  predicate Carries(k: Pair, id: string) {
    k.0 == id || k.1 == id
  }

  /** The partner identifiers of the keys, in key order, A before B. */
  function Endpoints(keys: seq<Pair>): seq<string> {
    if keys == [] then []
    else
      var last := keys[|keys| - 1];
      Endpoints(keys[..|keys| - 1]) + [last.0, last.1]
  }

  /** An identifier is among the endpoints exactly when some key carries it. */
  lemma {:induction false} EndpointsCarry(keys: seq<Pair>, x: string)
    ensures x in Endpoints(keys) <==> exists j :: 0 <= j < |keys| && Carries(keys[j], x)
    decreases |keys|
  {
    if keys != [] {
      var init := keys[..|keys| - 1];
      EndpointsCarry(init, x);
      assert forall j :: 0 <= j < |init| ==> init[j] == keys[j];
      if x in Endpoints(keys) && x !in Endpoints(init) {
        assert Carries(keys[|keys| - 1], x);
      }
    }
  }

  /** The position of the first key from `from` on that carries `id`, or `|keys|` when none does. */
  function FirstCarrierFrom(keys: seq<Pair>, id: string, from: nat): (c: nat)
    requires from <= |keys|
    ensures from <= c <= |keys|
    decreases |keys| - from
  {
    if from == |keys| || Carries(keys[from], id) then from else FirstCarrierFrom(keys, id, from + 1)
  }

  /** The first carrier from `from` on carries `id` and no key between does. */
  lemma {:induction false} FirstCarrierSpec(keys: seq<Pair>, id: string, from: nat)
    requires from <= |keys|
    ensures FirstCarrierFrom(keys, id, from) < |keys| <==> exists j :: from <= j < |keys| && Carries(keys[j], id)
    ensures FirstCarrierFrom(keys, id, from) < |keys| ==> Carries(keys[FirstCarrierFrom(keys, id, from)], id)
    ensures forall j :: from <= j < FirstCarrierFrom(keys, id, from) ==> !Carries(keys[j], id)
    decreases |keys| - from
  {
    if from < |keys| && !Carries(keys[from], id) {
      FirstCarrierSpec(keys, id, from + 1);
    }
  }

  /**
   The node for `id` taken from interaction `it`: the taxa of its side
   (side B when it is both partners), the PubMed ids and the methods.
   */
  function NodeAt(id: string, it: Interaction, addPrefix: bool, normalize: string -> string): Node {
    Node(AddPrefixToIdentifier(addPrefix, id, normalize), NodeLabel(id),
         it.pmid, if id == it.partnerB then it.taxonB else it.taxonA, it.methods)
  }

  /** The node for `id`: read from the first entry whose pair carries it. */
  function NodeFor(store: Store, id: string, addPrefix: bool, normalize: string -> string): Node
    requires Valid(store) && id in Endpoints(store.keys)
  {
    EndpointsCarry(store.keys, id);
    FirstCarrierSpec(store.keys, id, 0);
    NodeAt(id, store.entries[store.keys[FirstCarrierFrom(store.keys, id, 0)]], addPrefix, normalize)
  }

  lemma {:induction false} EndpointsNext(keys: seq<Pair>, i: nat)
    requires i < |keys|
    ensures Endpoints(keys[..i + 1]) == Endpoints(keys[..i]) + [keys[i].0, keys[i].1]
  {
    assert keys[..i + 1][..i] == keys[..i];
  }

  lemma {:induction false} AppendNewOne<T>(acc: seq<T>, a: T)
    ensures AppendNew(acc, [a]) == if a in acc then acc else acc + [a]
  {
    assert [a][1..] == [];
  }

  lemma {:induction false} AppendNewTwo<T>(prior: seq<T>, a: T, b: T)
    ensures AppendNew([], prior + [a, b]) == AppendNew(AppendNew(AppendNew([], prior), [a]), [b])
  {
    assert prior + [a, b] == (prior + [a]) + [b];
    AppendNewSnoc([], prior + [a], b);
    AppendNewSnoc([], prior, a);
  }

  /** One key's step of the walk: each partner is appended unless already listed. */
  lemma {:induction false} OrderStep(keys: seq<Pair>, i: nat, order: seq<string>)
    requires i < |keys| && order == AppendNew([], Endpoints(keys[..i]))
    ensures var first := if keys[i].0 in order then order else order + [keys[i].0];
            AppendNew([], Endpoints(keys[..i + 1])) == if keys[i].1 in first then first else first + [keys[i].1]
    ensures keys[i].0 !in order ==> keys[i].0 !in Endpoints(keys[..i])
    ensures keys[i].1 !in order ==> keys[i].1 !in Endpoints(keys[..i])
  {
    var prior := Endpoints(keys[..i]);
    EndpointsNext(keys, i);
    AppendNewTwo(prior, keys[i].0, keys[i].1);
    AppendNewContents([], prior, keys[i].0);
    AppendNewContents([], prior, keys[i].1);
    AppendNewOne(order, keys[i].0);
    AppendNewOne(if keys[i].0 in order then order else order + [keys[i].0], keys[i].1);
  }

  /** An identifier no earlier key carries has key `i` as its first carrier. */
  lemma {:induction false} NewIdentifierAt(keys: seq<Pair>, i: nat, x: string)
    requires i < |keys| && Carries(keys[i], x) && x !in Endpoints(keys[..i])
    ensures FirstCarrierFrom(keys, x, 0) == i
  {
    EndpointsCarry(keys, x);
    EndpointsCarry(keys[..i], x);
    FirstCarrierSpec(keys, x, 0);
    assert forall j :: 0 <= j < i ==> keys[..i][j] == keys[j];
    assert forall j :: 0 <= j < i ==> !Carries(keys[j], x);
  }

  /** The node of an identifier no earlier key carries is read from key `i`. */
  lemma {:induction false} NodeForNewIdentifier(store: Store, i: nat, x: string, addPrefix: bool, normalize: string -> string)
    requires Valid(store)
    requires i < |store.keys| && Carries(store.keys[i], x) && x !in Endpoints(store.keys[..i])
    ensures x in Endpoints(store.keys)
    ensures NodeFor(store, x, addPrefix, normalize) == NodeAt(x, store.entries[store.keys[i]], addPrefix, normalize)
  {
    NewIdentifierAt(store.keys, i, x);
    EndpointsCarry(store.keys, x);
  }

  /** Node `j` is the node of identifier `j`, for every `j`: written recursively so that it unfolds one step at a time. */
  /** `node` is the node `get_nodes` yields for the endpoint `id`. */
  ghost predicate ReadAs(store: Store, id: string, node: Node, addPrefix: bool, normalize: string -> string)
    requires Valid(store)
  {
    id in Endpoints(store.keys) && node == NodeFor(store, id, addPrefix, normalize)
  }

  ghost predicate NodesRead(store: Store, ids: seq<string>, nodes: seq<Node>, addPrefix: bool, normalize: string -> string)
    requires Valid(store)
    decreases |ids|
  {
    |ids| == |nodes|
    && (ids == []
        || (NodesRead(store, ids[..|ids| - 1], nodes[..|nodes| - 1], addPrefix, normalize)
            && ReadAs(store, ids[|ids| - 1], nodes[|nodes| - 1], addPrefix, normalize)))
  }

  /** Extending the node list with an identifier that no key before `i` carries. */
  lemma {:induction false} NodesReadNew(store: Store, ids: seq<string>, nodes: seq<Node>, i: nat, x: string,
                     addPrefix: bool, normalize: string -> string)
    requires Valid(store) && NodesRead(store, ids, nodes, addPrefix, normalize)
    requires i < |store.keys| && Carries(store.keys[i], x) && x !in Endpoints(store.keys[..i])
    ensures NodesRead(store, ids + [x], nodes + [NodeAt(x, store.entries[store.keys[i]], addPrefix, normalize)],
                      addPrefix, normalize)
  {
    NodeForNewIdentifier(store, i, x, addPrefix, normalize);
    var n := NodeAt(x, store.entries[store.keys[i]], addPrefix, normalize);
    assert (ids + [x])[..|ids|] == ids;
    assert (nodes + [n])[..|nodes|] == nodes;
  }

  lemma {:induction false} NodesReadAll(store: Store, ids: seq<string>, nodes: seq<Node>,
                                        addPrefix: bool, normalize: string -> string)
    requires Valid(store) && NodesRead(store, ids, nodes, addPrefix, normalize)
    ensures |ids| == |nodes|
    ensures forall j :: 0 <= j < |ids| ==> ReadAs(store, ids[j], nodes[j], addPrefix, normalize)
    decreases |ids|
  {
    if ids != [] {
      var m := |ids| - 1;
      NodesReadAll(store, ids[..m], nodes[..m], addPrefix, normalize);
      forall j | 0 <= j < |ids| ensures ReadAs(store, ids[j], nodes[j], addPrefix, normalize) {
        if j < m {
          assert ids[..m][j] == ids[j] && nodes[..m][j] == nodes[j];
        }
      }
    }
  }

  /**
   The inner step of `get_nodes`: identifier `x` of key `i` yields a node
   unless it was seen before.
   */
  method Visit(store: Store, i: nat, x: string, seen: set<string>, ghost order: seq<string>, nodes: seq<Node>,
               addPrefix: bool, normalize: string -> string)
    returns (seen': set<string>, ghost order': seq<string>, nodes': seq<Node>)
    requires Valid(store) && i < |store.keys| && Carries(store.keys[i], x)
    requires forall y :: y in order <==> y in seen
    requires NodesRead(store, order, nodes, addPrefix, normalize)
    requires x !in order ==> x !in Endpoints(store.keys[..i])
    ensures order' == if x in order then order else order + [x]
    ensures forall y :: y in order' <==> y in seen'
    ensures NodesRead(store, order', nodes', addPrefix, normalize)
    ensures x !in order ==> nodes' == nodes + [NodeAt(x, store.entries[store.keys[i]], addPrefix, normalize)]
    ensures x in order ==> nodes' == nodes
  {
    seen', order', nodes' := seen, order, nodes;
    if x !in seen {
      NodesReadNew(store, order, nodes, i, x, addPrefix, normalize);
      seen' := seen + {x};
      order' := order + [x];
      nodes' := nodes + [NodeAt(x, store.entries[store.keys[i]], addPrefix, normalize)];
    }
  }

  /**
   `get_nodes`: walks the entries in order and each partner of each pair,
   yielding a node for every identifier not seen before.
   */
  method GetNodes(store: Store, addPrefix: bool, normalize: string -> string) returns (nodes: seq<Node>)
    requires Valid(store)
    ensures |nodes| == |FirstOccurrences(Endpoints(store.keys))|
    ensures forall j :: 0 <= j < |nodes| ==>
              nodes[j] == NodeFor(store, FirstOccurrences(Endpoints(store.keys))[j], addPrefix, normalize)
  {
    var seen: set<string> := {};
    ghost var order: seq<string> := [];
    nodes := [];
    var i := 0;
    while i < |store.keys|
      invariant 0 <= i <= |store.keys|
      invariant order == AppendNew([], Endpoints(store.keys[..i]))
      invariant forall x :: x in order <==> x in seen
      invariant NodesRead(store, order, nodes, addPrefix, normalize)
    {
      var k := store.keys[i];
      OrderStep(store.keys, i, order);
      seen, order, nodes := Visit(store, i, k.0, seen, order, nodes, addPrefix, normalize);
      seen, order, nodes := Visit(store, i, k.1, seen, order, nodes, addPrefix, normalize);
      i := i + 1;
    }
    assert store.keys[..i] == store.keys;
    NodesReadAll(store, order, nodes, addPrefix, normalize);
    assert order == FirstOccurrences(Endpoints(store.keys));
    forall j | 0 <= j < |nodes| ensures nodes[j] == NodeFor(store, order[j], addPrefix, normalize) {
      assert ReadAs(store, order[j], nodes[j], addPrefix, normalize);
    }
  }

  // ---------------------------------------------------------------------
  // Edges
  // ---------------------------------------------------------------------

  datatype EdgeProps = EdgeProps(
    pubmedIds: set<string>, methods: set<string>, taxonA: set<string>, taxonB: set<string>,
    relationshipId: set<string>)

  /** An edge as `get_edges` yields it; the edge id is always None. */
  datatype Edge = Edge(id: Option<string>, source: string, target: string, name: string, props: EdgeProps)

  const DefaultEdgeLabel: string := "protein_protein_interaction"

  /** Every value with `'` replaced by `^`. */
  function Escaped(vals: set<string>): (r: set<string>)
    ensures forall v :: v in r ==> '\'' !in v
    ensures forall v :: v in vals ==> ReplaceChar(v, '\'', '^') in r
    ensures forall w :: w in r ==> exists v :: v in vals && w == ReplaceChar(v, '\'', '^')
  {
    set v | v in vals :: ReplaceChar(v, '\'', '^')
  }

  function EdgeOf(it: Interaction, addPrefix: bool, normalize: string -> string, name: string): Edge {
    Edge(None,
         AddPrefixToIdentifier(addPrefix, it.partnerA, normalize),
         AddPrefixToIdentifier(addPrefix, it.partnerB, normalize),
         name,
         EdgeProps(Escaped(it.pmid), Escaped(it.methods), Escaped(it.taxonA), Escaped(it.taxonB),
                   Escaped(it.relationshipId)))
  }

  /** The assertion of the edge stream fails on this interaction. */
  predicate SeparatorInMethods(it: Interaction) {
    exists m :: m in Escaped(it.methods) && '|' in m
  }

  /**
   `get_edges`: one edge per entry, in dictionary order, until an entry whose
   methods contain '|' stops the stream with an assertion error.
   */
  method GetEdges(store: Store, addPrefix: bool, normalize: string -> string, name: string)
    returns (edges: seq<Edge>, failure: Option<Error>)
    requires Valid(store)
    ensures failure.None? <==> forall j :: 0 <= j < |store.keys| ==> !SeparatorInMethods(store.entries[store.keys[j]])
    ensures failure.None? ==> |edges| == |store.keys|
    ensures failure.Some? ==>
              |edges| < |store.keys| && SeparatorInMethods(store.entries[store.keys[|edges|]])
              && failure.value == MethodContainsSeparator(store.keys[|edges|])
    ensures forall j :: 0 <= j < |edges| ==>
              !SeparatorInMethods(store.entries[store.keys[j]])
              && edges[j] == EdgeOf(store.entries[store.keys[j]], addPrefix, normalize, name)
  {
    edges := [];
    var i := 0;
    while i < |store.keys|
      invariant 0 <= i <= |store.keys| && |edges| == i
      invariant forall j :: 0 <= j < i ==>
                  !SeparatorInMethods(store.entries[store.keys[j]])
                  && edges[j] == EdgeOf(store.entries[store.keys[j]], addPrefix, normalize, name)
    {
      var it := store.entries[store.keys[i]];
      var edge := EdgeOf(it, addPrefix, normalize, name);
      if exists m :: m in edge.props.methods && '|' in m {
        return edges, Some(MethodContainsSeparator(store.keys[i]));
      }
      edges := edges + [edge];
      i := i + 1;
    }
    return edges, None;
  }
}
