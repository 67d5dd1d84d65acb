/**
 The per-line field extraction shared by the three adapters: a MITAB 2.6
 line split on tabs, read by position, with a prefix blocklist on the two
 final references.
 */
module Mitab {
  import opened Wrappers
  import opened Text
  import Seqs

  // Positions of the fields read (0-based, fixed by MITAB 2.6).
  const MethodField: nat := 6
  const PublicationField: nat := 8
  const TaxonAField: nat := 9
  const TaxonBField: nat := 10
  const InteractionIdField: nat := 13
  const FinalReferenceA: nat := 38
  const FinalReferenceB: nat := 39
  /** Lines with fewer fields make `line[38]` or `line[39]` raise `IndexError`. */
  const MinFields: nat := 40

  /** The blocklist of the integration and tutorial adapters. */
  const CoreBlockedPrefixes: seq<string> := ["complex:", "pdb:", "flybase:"]

  /** The wider blocklist of adapter 11. */
  const ExtendedBlockedPrefixes: seq<string> :=
    ["complex:", "refseq:", "pdb:", "dbj/embl/genbank:", "flybase:"]

  /** The reference starts with one of the blocked prefixes. */
  predicate Blocked(reference: string, prefixes: seq<string>) {
    exists i :: 0 <= i < |prefixes| && StartsWith(reference, prefixes[i])
  }

  /** The line is skipped: either final reference is blocked. */
  predicate LineBlocked(fields: seq<string>, prefixes: seq<string>)
    requires |fields| >= MinFields
  {
    Blocked(fields[FinalReferenceA], prefixes) || Blocked(fields[FinalReferenceB], prefixes)
  }

  /** The tab-separated fields of a line, as `line.split("\t")`. */
  function Fields(line: string): seq<string> {
    Split(line, '\t')
  }

  /** The partner identifier: `parts[1]` of `reference.split(":")`, or "" without a second piece. */
  function PartnerId(reference: string): string {
    var parts := Split(reference, ':');
    if |parts| > 1 then parts[1] else []
  }

  /**
   The partner identifier is the text between the first and the second
   colon (or the end), and "" when there is no colon at all.
   */
  lemma {:induction false} PartnerIdIsSecondPiece(reference: string)
    ensures ':' !in reference ==> PartnerId(reference) == []
    ensures ':' in reference ==>
              PartnerId(reference) == UpTo(reference[Seqs.FirstIndex(reference, ':') + 1..], ':')
  {
    if ':' in reference {
      SplitAtFirst(reference, ':');
      SplitFirstPiece(reference[Seqs.FirstIndex(reference, ':') + 1..], ':');
    } else {
      SplitWithoutSep(reference, ':');
    }
  }

  /**
   The PubMed id: the last ':'-piece of the last '|'-piece of the field,
   which is the longest suffix free of both separators.
   */
  function PubmedId(field: string): string {
    Last(Split(Last(Split(field, '|')), ':'))
  }

  /** A suffix of a suffix is a suffix, and the character before it is the same in both. */
  lemma {:induction false} SuffixOfSuffix(s: string, t: string, r: string)
    requires |t| <= |s| && t == s[|s| - |t|..]
    requires |r| <= |t| && r == t[|t| - |r|..]
    ensures r == s[|s| - |r|..]
    ensures |r| < |t| ==> t[|t| - |r| - 1] == s[|s| - |r| - 1]
  {
  }

  /** A text with no `c` has no `c` in any suffix. */
  lemma {:induction false} SuffixAvoids(t: string, r: string, c: char)
    requires |r| <= |t| && r == t[|t| - |r|..] && c !in t
    ensures c !in r
  {
    assert forall j :: 0 <= j < |r| ==> r[j] == t[|t| - |r| + j];
  }

  /** The PubMed id is a suffix of the field free of '|' and ':', preceded by one of them or by nothing. */
  lemma {:induction false} PubmedIdSpec(field: string)
    ensures var r := PubmedId(field);
            |r| <= |field| && r == field[|field| - |r|..] && '|' !in r && ':' !in r
            && (|r| == |field| || field[|field| - |r| - 1] == '|' || field[|field| - |r| - 1] == ':')
  {
    var last := Last(Split(field, '|'));
    SplitLastPiece(field, '|');
    var r := Last(Split(last, ':'));
    SplitLastPiece(last, ':');
    SuffixOfSuffix(field, last, r);
    SuffixAvoids(last, r, '|');
  }

  // ---------------------------------------------------------------------
  // Method: re.search(r"\((.*?)\)", field).group(1), or "" without a match.
  // `.` does not match "\n", so a group cannot span a newline.
  // ---------------------------------------------------------------------

  /** A parenthesised group with contents `r` opens at position `i`. */
  ghost predicate GroupAt(s: string, i: nat, r: string) {
    i + |r| + 1 < |s| && s[i] == '(' && s[i + 1..i + 1 + |r|] == r
    && s[i + 1 + |r|] == ')' && ')' !in r && '\n' !in r
  }

  /** The lazy `.*?\)` from position `j`: the first ')' there, unless a newline comes first. */
  function CloseFrom(s: string, j: nat): (r: Option<nat>)
    requires j <= |s|
    ensures r.Some? ==> j <= r.value < |s|
    decreases |s| - j
  {
    if j == |s| then None
    else if s[j] == ')' then Some(j)
    else if s[j] == '\n' then None
    else CloseFrom(s, j + 1)
  }

  /** The close found is the first ')' and no newline precedes it; without one, every ')' follows a newline. */
  lemma {:induction false} CloseFromSpec(s: string, j: nat)
    requires j <= |s|
    ensures var r := CloseFrom(s, j);
            (r.Some? ==> s[r.value] == ')' && ')' !in s[j..r.value] && '\n' !in s[j..r.value])
            && (r.None? ==> forall k :: j <= k < |s| && s[k] == ')' ==> '\n' in s[j..k])
    decreases |s| - j
  {
    if j < |s| && s[j] != ')' && s[j] != '\n' {
      CloseFromSpec(s, j + 1);
      assert forall k :: j + 1 <= k <= |s| ==> s[j..k] == [s[j]] + s[j + 1..k];
    }
  }

  /** A '(' at `g` whose lazy close succeeds. */
  predicate GroupOpensAt(s: string, g: nat) {
    g < |s| && s[g] == '(' && CloseFrom(s, g + 1).Some?
  }

  /** The search for the group from start position `i` on. */
  function MethodFrom(s: string, i: nat): (r: string)
    requires i <= |s|
    decreases |s| - i
  {
    if i == |s| then []
    else if GroupOpensAt(s, i) then s[i + 1..CloseFrom(s, i + 1).value]
    else MethodFrom(s, i + 1)
  }

  /** The experimental method: the contents of the first parenthesised group of field 6. */
  function MethodOf(field: string): string {
    MethodFrom(field, 0)
  }

  /** The leftmost opening position from `i` on, or `|s|` when there is none. */
  function FirstGroup(s: string, i: nat): (g: nat)
    requires i <= |s|
    ensures i <= g <= |s|
    ensures g < |s| ==> GroupOpensAt(s, g)
    decreases |s| - i
  {
    if i == |s| || GroupOpensAt(s, i) then i else FirstGroup(s, i + 1)
  }

  /** No position before `FirstGroup` opens a group. */
  lemma {:induction false} FirstGroupSpec(s: string, i: nat)
    requires i <= |s|
    ensures forall g :: i <= g < FirstGroup(s, i) ==> !GroupOpensAt(s, g)
    decreases |s| - i
  {
    if i < |s| && !GroupOpensAt(s, i) {
      FirstGroupSpec(s, i + 1);
    }
  }

  /** The search answers the contents of the group at `FirstGroup`, or "" when there is none. */
  lemma {:induction false} MethodFromAtFirstGroup(s: string, i: nat)
    requires i <= |s|
    ensures FirstGroup(s, i) < |s| ==>
              MethodFrom(s, i) == s[FirstGroup(s, i) + 1..CloseFrom(s, FirstGroup(s, i) + 1).value]
    ensures FirstGroup(s, i) == |s| ==> MethodFrom(s, i) == []
    decreases |s| - i
  {
    if i < |s| && !GroupOpensAt(s, i) {
      MethodFromAtFirstGroup(s, i + 1);
    }
  }

  /** The computed opening agrees with the regex: a group opens at `g` iff some `GroupAt` holds there. */
  lemma {:induction false} GroupOpensIff(s: string, g: nat)
    ensures GroupOpensAt(s, g) ==> GroupAt(s, g, s[g + 1..CloseFrom(s, g + 1).value])
    ensures forall r :: GroupAt(s, g, r) ==> GroupOpensAt(s, g)
  {
    if GroupOpensAt(s, g) {
      CloseFromSpec(s, g + 1);
    }
    forall r | GroupAt(s, g, r) ensures GroupOpensAt(s, g) {
      CloseFromSpec(s, g + 1);
      var k := g + 1 + |r|;
      assert s[k] == ')' && s[g + 1..k] == r;
    }
  }

  /**
   `re.search` semantics: the method is the contents of the leftmost
   parenthesised group without a newline, and "" when the field has none.
   */
  lemma {:induction false} MethodOfSpec(field: string)
    ensures var g := FirstGroup(field, 0);
            (g < |field| ==> GroupAt(field, g, MethodOf(field)))
            && (g == |field| ==> MethodOf(field) == [])
            && (forall g', r :: 0 <= g' < g ==> !GroupAt(field, g', r))
  {
    var g := FirstGroup(field, 0);
    FirstGroupSpec(field, 0);
    MethodFromAtFirstGroup(field, 0);
    if g < |field| {
      GroupOpensIff(field, g);
    }
    forall g', r | 0 <= g' < g ensures !GroupAt(field, g', r) {
      GroupOpensIff(field, g');
    }
  }

  // ---------------------------------------------------------------------
  // Taxon and rigid id: re.search(tag + "(" + cls + "+)", field).group(1),
  // or "" without a match; for `taxid:(\d+)` and `rigid:([^|]+)`.
  // ---------------------------------------------------------------------

  /** `tag` occurs at `i` and is followed by at least one character of `cls`. */
  predicate TagAt(s: string, tag: string, cls: char -> bool, i: nat) {
    i + |tag| < |s| && s[i..i + |tag|] == tag && cls(s[i + |tag|])
  }

  /** The end of the longest run of `cls` characters starting at `j`. */
  function RunEnd(s: string, j: nat, cls: char -> bool): (e: nat)
    requires j <= |s|
    ensures j <= e <= |s|
    decreases |s| - j
  {
    if j == |s| || !cls(s[j]) then j else RunEnd(s, j + 1, cls)
  }

  /** Every character of the run is of the class, and the one after it is not. */
  lemma {:induction false} RunEndSpec(s: string, j: nat, cls: char -> bool)
    requires j <= |s|
    ensures var e := RunEnd(s, j, cls);
            (forall m :: j <= m < e ==> cls(s[m])) && (e == |s| || !cls(s[e]))
    decreases |s| - j
  {
    if j < |s| && cls(s[j]) {
      RunEndSpec(s, j + 1, cls);
    }
  }

  /** The search from start position `i` on; the greedy `+` takes the whole run. */
  function TaggedFrom(s: string, tag: string, cls: char -> bool, i: nat): (r: string)
    decreases |s| - i
  {
    if i + |tag| >= |s| then []
    else if s[i..i + |tag|] == tag && cls(s[i + |tag|]) then s[i + |tag|..RunEnd(s, i + |tag|, cls)]
    else TaggedFrom(s, tag, cls, i + 1)
  }

  /** The leftmost tag position from `i` on, or `|s|` when there is none. */
  function FirstTag(s: string, tag: string, cls: char -> bool, i: nat): (g: nat)
    ensures g < |s| ==> i <= g && g + |tag| < |s|
    decreases |s| - i
  {
    if i + |tag| >= |s| then |s|
    else if s[i..i + |tag|] == tag && cls(s[i + |tag|]) then i
    else FirstTag(s, tag, cls, i + 1)
  }

  /** `FirstTag` is the leftmost tag, and `|s|` means there is none. */
  lemma {:induction false} FirstTagSpec(s: string, tag: string, cls: char -> bool, i: nat)
    ensures var g := FirstTag(s, tag, cls, i);
            (g < |s| ==> i <= g && TagAt(s, tag, cls, g))
            && (forall g' :: i <= g' < g ==> !TagAt(s, tag, cls, g'))
            && (g == |s| ==> forall g' :: i <= g' ==> !TagAt(s, tag, cls, g'))
    decreases |s| - i
  {
    if i + |tag| < |s| && !(s[i..i + |tag|] == tag && cls(s[i + |tag|])) {
      FirstTagSpec(s, tag, cls, i + 1);
    }
  }

  /** The search answers the whole class run after the leftmost tag, or "" when there is no tag. */
  lemma {:induction false} TaggedFromSpec(s: string, tag: string, cls: char -> bool, i: nat)
    ensures var g := FirstTag(s, tag, cls, i);
            TaggedFrom(s, tag, cls, i)
            == if g < |s| then s[g + |tag|..RunEnd(s, g + |tag|, cls)] else []
    decreases |s| - i
  {
    if i + |tag| < |s| && !(s[i..i + |tag|] == tag && cls(s[i + |tag|])) {
      TaggedFromSpec(s, tag, cls, i + 1);
    }
  }

  /** After a tag the run is not empty, so a match yields a non-empty id. */
  lemma {:induction false} TaggedFromFound(s: string, tag: string, cls: char -> bool, i: nat)
    ensures TaggedFrom(s, tag, cls, i) != [] <==> exists g :: i <= g && TagAt(s, tag, cls, g)
  {
    TaggedFromSpec(s, tag, cls, i);
    FirstTagSpec(s, tag, cls, i);
    var g := FirstTag(s, tag, cls, i);
    if g < |s| {
      assert cls(s[g + |tag|]);
      assert RunEnd(s, g + |tag|, cls) > g + |tag|;
    }
  }

  /** The taxon id: the digits after the first "taxid:" that has any. */
  function TaxonOf(field: string): string {
    TaggedFrom(field, "taxid:", IsAsciiDigit, 0)
  }

  /** The rigid id: the text after the first "rigid:" up to the next '|' or the end. */
  function RigidOf(field: string): string {
    TaggedFrom(field, "rigid:", c => c != '|', 0)
  }

  /** What the parser reads from one line. */
  datatype Extracted = Extracted(
    partnerA: string,
    partnerB: string,
    pmid: string,
    methodName: string,
    taxonA: string,
    taxonB: string,
    relationshipId: string)

  /** Reads every field of interest of a line that has them all. */
  function Extract(fields: seq<string>): (e: Extracted)
    requires |fields| >= MinFields
  {
    Extracted(
      PartnerId(fields[FinalReferenceA]),
      PartnerId(fields[FinalReferenceB]),
      PubmedId(fields[PublicationField]),
      MethodOf(fields[MethodField]),
      TaxonOf(fields[TaxonAField]),
      TaxonOf(fields[TaxonBField]),
      RigidOf(fields[InteractionIdField]))
  }

  /** Every line has the 40 fields the parser reads. */
  predicate WellFormedLines(lines: seq<string>) {
    forall i :: 0 <= i < |lines| ==> |Fields(lines[i])| >= MinFields
  }

  /** The position of the first line with too few fields. */
  function FirstMalformed(lines: seq<string>): (n: nat)
    requires !WellFormedLines(lines)
    ensures n < |lines| && |Fields(lines[n])| < MinFields
    ensures WellFormedLines(lines[..n])
  {
    if |Fields(lines[0])| < MinFields then 0
    else
      assert !WellFormedLines(lines[1..]) by {
        var i :| 0 <= i < |lines| && |Fields(lines[i])| < MinFields;
        assert lines[1..][i - 1] == lines[i];
      }
      var n := 1 + FirstMalformed(lines[1..]);
      assert forall i :: 0 < i < n ==> lines[..n][i] == lines[1..][..n - 1][i - 1];
      n
  }

  lemma {:induction false} WellFormedTail(lines: seq<string>)
    requires lines != [] && WellFormedLines(lines)
    ensures WellFormedLines(lines[1..])
  {
    assert forall i :: 0 < i < |lines| ==> lines[1..][i - 1] == lines[i];
  }

  /** A `database:accession` reference yields the accession. */
  lemma {:induction false} PartnerIdOfPrefixedReference(database: string, accession: string)
    requires ':' !in database && ':' !in accession
    ensures PartnerId(database + [':'] + accession) == accession
  {
    SplitWithoutSep(accession, ':');
    SplitAfterPiece(database, accession, ':');
  }

  /** Text after a second colon is not part of the partner identifier. */
  lemma {:induction false} PartnerIdStopsAtSecondColon(database: string, accession: string, rest: string)
    requires ':' !in database && ':' !in accession
    ensures PartnerId(database + [':'] + accession + [':'] + rest) == accession
  {
    SplitAfterPiece(accession, rest, ':');
    SplitAfterPiece(database, accession + [':'] + rest, ':');
    assert database + [':'] + accession + [':'] + rest == database + [':'] + (accession + [':'] + rest);
  }

  /** Examples: a prefixed reference and a bare one. */
  lemma {:induction false} PartnerIdExamples()
    ensures PartnerId("uniprotkb:P12345") == "P12345"
    ensures PartnerId("P12345") == ""
  {
    PartnerIdOfPrefixedReference("uniprotkb", "P12345");
    assert "uniprotkb" + [':'] + "P12345" == "uniprotkb:P12345";
    SplitWithoutSep("P12345", ':');
  }

  /** Whatever precedes it, a separator-free number after the last '|' or ':' is the PubMed id. */
  lemma {:induction false} PubmedIdOfLastReference(front: string, sep: char, number: string)
    requires sep == '|' || sep == ':'
    requires '|' !in number && ':' !in number
    ensures PubmedId(front + [sep] + number) == number
  {
    var s := front + [sep] + number;
    var r := PubmedId(s);
    PubmedIdSpec(s);
    assert s[|s| - |number|..] == number;
    assert s[|s| - |number| - 1] == sep;
    assert forall k :: |s| - |number| <= k < |s| ==> s[k] == number[k - (|s| - |number|)];
    assert forall k :: |s| - |r| <= k < |s| ==> s[k] == r[k - (|s| - |r|)];
    assert |r| == |number|;
  }

  /** Of several references only the number of the last one is kept. */
  lemma {:induction false} PubmedIdExample()
    ensures PubmedId("pubmed:1234|pubmed:5678") == "5678"
  {
    PubmedIdOfLastReference("pubmed:1234|pubmed", ':', "5678");
    assert "pubmed:1234|pubmed" + [':'] + "5678" == "pubmed:1234|pubmed:5678";
  }
}
