/**
 The identifier regular expressions of the adapters, as predicates over the
 strings they accept. `re.match(R, s)` succeeds iff some prefix `s[..k]`
 belongs to the language of `R`; a trailing `$` additionally demands that `k`
 is the end of `s` or the position of a final "\n" (Python's `$`). `[0-9]` and
 `\d` are both read as ASCII digits.
 */
module Patterns {
  import opened Text

  /** `$` at position `k` of `s`: the end, or just before a final newline. */
  predicate EndAnchor(s: string, k: nat)
    requires k <= |s|
  {
    k == |s| || (k == |s| - 1 && s[k] == '\n')
  }

  /** `\d+` (or `[0-9]+`) matching all of `t`. */
  predicate Digits(t: string) {
    |t| >= 1 && forall i :: 0 <= i < |t| ==> IsAsciiDigit(t[i])
  }

  /** `[A-Z]*` matching all of `t`. */
  predicate UpperRun(t: string) {
    forall i :: 0 <= i < |t| ==> IsAsciiUpper(t[i])
  }

  /** `(\.\d+)?` (lead '.') or `(\-\d+)?` (lead '-') matching all of `t`. */
  predicate OptionalGroup(t: string, lead: char) {
    t == [] || (t[0] == lead && Digits(t[1..]))
  }

  // ---------------------------------------------------------------------
  // UniProt:
  //   ^([A-N,R-Z][0-9]([A-Z][A-Z, 0-9][A-Z, 0-9][0-9]){1,2})
  //   |([O,P,Q][0-9][A-Z, 0-9][A-Z, 0-9][A-Z, 0-9][0-9])(\.\d+)?(\-\d+)?$
  // The top-level `|` splits the pattern: the first alternative carries `^`
  // but no `$`; the second carries `$`. The classes contain a literal ',' and,
  // in `[A-Z, 0-9]`, a literal space.
  // ---------------------------------------------------------------------

  /** `[A-N,R-Z]` */
  predicate InFirstLead(c: char) {
    ('A' <= c <= 'N') || c == ',' || ('R' <= c <= 'Z')
  }

  /** `[O,P,Q]` */
  predicate InSecondLead(c: char) {
    c == 'O' || c == ',' || c == 'P' || c == 'Q'
  }

  /** `[A-Z, 0-9]` */
  predicate InMiddle(c: char) {
    IsAsciiUpper(c) || c == ',' || c == ' ' || IsAsciiDigit(c)
  }

  /** `[A-Z][A-Z, 0-9][A-Z, 0-9][0-9]` */
  predicate UniProtBlock(t: string) {
    |t| == 4 && IsAsciiUpper(t[0]) && InMiddle(t[1]) && InMiddle(t[2]) && IsAsciiDigit(t[3])
  }

  /** The first alternative: `[A-N,R-Z][0-9](block){1,2}`. */
  predicate UniProtFirstShape(t: string) {
    (|t| == 6 || |t| == 10) && InFirstLead(t[0]) && IsAsciiDigit(t[1])
    && UniProtBlock(t[2..6]) && (|t| == 10 ==> UniProtBlock(t[6..]))
  }

  /** `[O,P,Q][0-9][A-Z, 0-9][A-Z, 0-9][A-Z, 0-9][0-9]` */
  predicate UniProtSecondCore(t: string) {
    |t| == 6 && InSecondLead(t[0]) && IsAsciiDigit(t[1])
    && InMiddle(t[2]) && InMiddle(t[3]) && InMiddle(t[4]) && IsAsciiDigit(t[5])
  }

  /**
   The second alternative before `$`: the core, `(\.\d+)?` and, when
   `isoform` holds, `(\-\d+)?`.
   */
  predicate UniProtSecondShape(t: string, isoform: bool) {
    |t| >= 6 && UniProtSecondCore(t[..6])
    && exists j :: 6 <= j <= |t| && OptionalGroup(t[6..j], '.')
                   && (if isoform then OptionalGroup(t[j..], '-') else j == |t|)
  }

  /**
   `re.match` of the UniProt pattern. With `isoform` it is the pattern of the
   integration adapter and of the tutorial's prefixing helper; without it, the
   tutorial's node classifier (no `(\-\d+)?` group).
   */
  predicate UniProtMatch(s: string, isoform: bool) {
    (exists k :: 0 <= k <= |s| && UniProtFirstShape(s[..k]))
    || (exists k :: 0 <= k <= |s| && UniProtSecondShape(s[..k], isoform) && EndAnchor(s, k))
  }

  // ---------------------------------------------------------------------
  // RefSeq:
  //   ^(((AC|AP|NC|NG|NM|NP|NR|NT|NW|WP|XM|XP|XR|YP|ZP)_\d+)|(NZ_[A-Z]{2,4}\d+))(\.\d+)?$
  // The tutorial's node classifier uses the same pattern without `$`.
  // ---------------------------------------------------------------------

  const RefSeqCodes: set<string> :=
    {"AC", "AP", "NC", "NG", "NM", "NP", "NR", "NT", "NW", "WP", "XM", "XP", "XR", "YP", "ZP"}

  /** `(CODE_\d+)|(NZ_[A-Z]{2,4}\d+)` matching all of `t`. */
  predicate RefSeqAccession(t: string) {
    (|t| >= 3 && t[..2] in RefSeqCodes && t[2] == '_' && Digits(t[3..]))
    || (|t| >= 3 && t[..3] == "NZ_"
        && exists j :: 5 <= j <= 7 && j <= |t| && UpperRun(t[3..j]) && Digits(t[j..]))
  }

  /** The accession followed by `(\.\d+)?`. */
  predicate RefSeqShape(t: string) {
    exists j :: 0 <= j <= |t| && RefSeqAccession(t[..j]) && OptionalGroup(t[j..], '.')
  }

  /** `re.match` of the RefSeq pattern, with or without the closing `$`. */
  predicate RefSeqMatch(s: string, anchored: bool) {
    exists k :: 0 <= k <= |s| && RefSeqShape(s[..k]) && (anchored ==> EndAnchor(s, k))
  }

  // ---------------------------------------------------------------------
  // Entrez fallback: ^[A-Z]+[0-9]+(\.\d+)?$
  // ---------------------------------------------------------------------

  /** `[A-Z]+[0-9]+(\.\d+)?` matching all of `t`. */
  predicate EntrezShape(t: string) {
    exists i, j :: 1 <= i < j <= |t| && UpperRun(t[..i]) && Digits(t[i..j]) && OptionalGroup(t[j..], '.')
  }

  /** `re.match` of the Entrez pattern. */
  predicate EntrezMatch(s: string) {
    exists k :: 0 <= k <= |s| && EntrezShape(s[..k]) && EndAnchor(s, k)
  }

  /** A UniProt match needs six characters with a digit in second place. */
  lemma {:induction false} UniProtMatchShape(s: string, isoform: bool)
    requires UniProtMatch(s, isoform)
    ensures |s| >= 6 && IsAsciiDigit(s[1])
  {
    if exists k :: 0 <= k <= |s| && UniProtFirstShape(s[..k]) {
      var k :| 0 <= k <= |s| && UniProtFirstShape(s[..k]);
      assert s[..k][1] == s[1];
    } else {
      var k :| 0 <= k <= |s| && UniProtSecondShape(s[..k], isoform) && EndAnchor(s, k);
      assert s[..k][..6][1] == s[1];
    }
  }

  /** A RefSeq accession starts with two capitals and an underscore. */
  lemma {:induction false} RefSeqAccessionShape(t: string)
    requires RefSeqAccession(t)
    ensures |t| >= 4 && IsAsciiUpper(t[0]) && IsAsciiUpper(t[1]) && t[2] == '_'
  {
    if t[..2] in RefSeqCodes && t[2] == '_' && Digits(t[3..]) {
      assert t[..2][0] == t[0] && t[..2][1] == t[1];
    } else {
      assert t[..3] == "NZ_";
      assert t[..3][0] == t[0] && t[..3][1] == t[1] && t[..3][2] == t[2];
      var m :| 5 <= m <= 7 && m <= |t| && UpperRun(t[3..m]) && Digits(t[m..]);
    }
  }

  /** A RefSeq match starts with two capitals and an underscore. */
  lemma {:induction false} RefSeqMatchShape(s: string, anchored: bool)
    requires RefSeqMatch(s, anchored)
    ensures |s| >= 4 && IsAsciiUpper(s[0]) && IsAsciiUpper(s[1]) && s[2] == '_'
  {
    var k :| 0 <= k <= |s| && RefSeqShape(s[..k]) && (anchored ==> EndAnchor(s, k));
    var j :| 0 <= j <= k && RefSeqAccession(s[..k][..j]) && OptionalGroup(s[..k][j..], '.');
    var t := s[..k][..j];
    RefSeqAccessionShape(t);
    assert t[0] == s[0] && t[1] == s[1] && t[2] == s[2];
  }

  /** An Entrez match starts with a capital and holds a digit right after the capitals. */
  lemma {:induction false} EntrezMatchShape(s: string)
    requires EntrezMatch(s)
    ensures |s| >= 2 && IsAsciiUpper(s[0])
  {
    var k :| 0 <= k <= |s| && EntrezShape(s[..k]) && EndAnchor(s, k);
    var i, j :| 1 <= i < j <= k && UpperRun(s[..k][..i]) && Digits(s[..k][i..j]) && OptionalGroup(s[..k][j..], '.');
    assert s[..k][..i][0] == s[0];
  }

  /** No identifier matches both UniProt and RefSeq: the second character is a digit in one and a capital in the other. */
  lemma {:induction false} UniProtExcludesRefSeq(s: string, isoform: bool, anchored: bool)
    requires UniProtMatch(s, isoform)
    ensures !RefSeqMatch(s, anchored)
  {
    UniProtMatchShape(s, isoform);
    if RefSeqMatch(s, anchored) {
      RefSeqMatchShape(s, anchored);
      assert false;
    }
  }

  /** Without `$` the RefSeq test accepts at least what the anchored one accepts. */
  lemma {:induction false} AnchoredRefSeqImpliesUnanchored(s: string)
    requires RefSeqMatch(s, true)
    ensures RefSeqMatch(s, false)
  {
  }

  /** Dropping the isoform group only narrows the UniProt test. */
  lemma {:induction false} NoIsoformImpliesIsoform(s: string)
    requires UniProtMatch(s, false)
    ensures UniProtMatch(s, true)
  {
    if !(exists k :: 0 <= k <= |s| && UniProtFirstShape(s[..k])) {
      var k :| 0 <= k <= |s| && UniProtSecondShape(s[..k], false) && EndAnchor(s, k);
      var t := s[..k];
      var j :| 6 <= j <= |t| && OptionalGroup(t[6..j], '.') && j == |t|;
      assert t[j..] == [];
      assert UniProtSecondShape(t, true);
    }
  }
}
