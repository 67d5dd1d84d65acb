/**
 Identifier classification (`find_protein_type`) and type-based CURIE
 prefixing (`add_prefix_to_identifier`) of the integration adapter.
 */
module ProteinTypes {
  import opened Wrappers
  import opened Text
  import opened Patterns

  datatype ProteinType = UniProt | RefSeq | Entrez

  /** The name the source returns for a type, also used as CURIE prefix. */
  function TypeName(t: ProteinType): string {
    match t
    case UniProt => "uniprot"
    case RefSeq => "refseq"
    case Entrez => "entrez"
  }

  /**
   Ordered, first-match-wins classification: UniProt, else RefSeq, else
   Entrez, else none. Whatever it answers, the identifier has the shape that
   answer needs. The UniProt and RefSeq patterns never both match, so the
   order between those two does not matter.
   */
  function FindProteinType(id: string): (r: Option<ProteinType>)
    ensures r == Some(UniProt) <==> UniProtMatch(id, true)
    ensures r == Some(RefSeq) <==> RefSeqMatch(id, true)
    ensures r == Some(Entrez) <==> EntrezMatch(id) && !UniProtMatch(id, true) && !RefSeqMatch(id, true)
    ensures r.None? <==> !UniProtMatch(id, true) && !RefSeqMatch(id, true) && !EntrezMatch(id)
    ensures r == Some(UniProt) ==> |id| >= 6 && IsAsciiDigit(id[1])
    ensures r == Some(RefSeq) ==> |id| >= 4 && IsAsciiUpper(id[0]) && IsAsciiUpper(id[1]) && id[2] == '_'
    ensures r == Some(Entrez) ==> |id| >= 2 && IsAsciiUpper(id[0])
  {
    if UniProtMatch(id, true) then
      UniProtMatchShape(id, true);
      UniProtExcludesRefSeq(id, true, true);
      Some(UniProt)
    else if RefSeqMatch(id, true) then
      RefSeqMatchShape(id, true);
      Some(RefSeq)
    else if EntrezMatch(id) then
      EntrezMatchShape(id);
      Some(Entrez)
    else None
  }

  /**
   `f"{find_protein_type(id)}_protein"`: Python renders a missing type as
   "None". Each label is chosen exactly when its pattern is the first that
   matches.
   */
  function NodeLabel(id: string): (name: string)
    ensures FindProteinType(id) == None ==> name == "None_protein"
    ensures FindProteinType(id).Some? ==> name == TypeName(FindProteinType(id).value) + "_protein"
    ensures name == "uniprot_protein" <==> UniProtMatch(id, true)
    ensures name == "refseq_protein" <==> RefSeqMatch(id, true)
    ensures name == "entrez_protein" <==> EntrezMatch(id) && !UniProtMatch(id, true) && !RefSeqMatch(id, true)
    ensures name == "None_protein" <==> !UniProtMatch(id, true) && !RefSeqMatch(id, true) && !EntrezMatch(id)
  {
    var name := match FindProteinType(id)
      case Some(t) => TypeName(t) + "_protein"
      case None => "None_protein";
    assert "entrez_protein"[0] != "refseq_protein"[0];
    name
  }

  /** `find_protein_type(id) or ""`. */
  function PrefixFor(t: Option<ProteinType>): string {
    match t
    case Some(p) => TypeName(p)
    case None => ""
  }

  /**
   `add_prefix_to_identifier`: with prefixing on and a non-empty identifier,
   the CURIE `prefix:identifier` handed to the normaliser (`normalize_curie`,
   a parameter here); otherwise the identifier itself.
   */
  function AddPrefixToIdentifier(addPrefix: bool, id: string, normalize: string -> string): (r: string)
    ensures !addPrefix || id == [] ==> r == id
    ensures addPrefix && id != [] ==> r == normalize(PrefixFor(FindProteinType(id)) + ":" + id)
  {
    if addPrefix && id != [] then normalize(PrefixFor(FindProteinType(id)) + ":" + id) else id
  }

  /**
   Before normalisation the CURIE splits at its first colon into the type's
   prefix and the identifier, whatever colons the identifier holds.
   */
  lemma {:induction false} AddPrefixRoundTrip(id: string)
    requires id != []
    ensures var parts := Split(AddPrefixToIdentifier(true, id, x => x), ':');
            |parts| >= 2 && parts[0] == PrefixFor(FindProteinType(id)) && Join(parts[1..], ':') == id
  {
    var p := PrefixFor(FindProteinType(id));
    assert ':' !in p;
    assert p + ":" + id == p + [':'] + id;
    SplitAfterPiece(p, id, ':');
    JoinSplit(id, ':');
    assert (([p] + Split(id, ':'))[1..]) == Split(id, ':');
  }

  /**
   A classified identifier's node label starts with the same type prefix
   that `add_prefix_to_identifier` writes before the colon of its CURIE.
   */
  lemma {:induction false} LabelSharesCuriePrefix(id: string)
    requires FindProteinType(id).Some?
    ensures NodeLabel(id) == PrefixFor(FindProteinType(id)) + "_protein"
    ensures NodeLabel(id) == Split(AddPrefixToIdentifier(true, id, x => x), ':')[0] + "_protein"
  {
    assert id != [];
    AddPrefixRoundTrip(id);
  }

  /** A RefSeq-shaped identifier is never taken for UniProt, so it is classified RefSeq. */
  lemma {:induction false} RefSeqShapedIsRefSeq(id: string)
    requires RefSeqMatch(id, true)
    ensures FindProteinType(id) == Some(RefSeq)
  {
    RefSeqMatchShape(id, true);
    if UniProtMatch(id, true) {
      UniProtMatchShape(id, true);
    }
  }

  /**
   The first UniProt alternative has no `$`: an identifier that starts with
   a first-alternative accession is UniProt whatever follows it.
   */
  lemma {:induction false} UniProtIgnoresTrailingText(accession: string, rest: string)
    requires UniProtFirstShape(accession)
    ensures FindProteinType(accession + rest) == Some(UniProt)
  {
    var s := accession + rest;
    assert s[..|accession|] == accession;
  }

  /** Identifiers that no pattern accepts, the empty one included, have no type. */
  lemma {:induction false} EmptyIdentifierHasNoType()
    ensures FindProteinType("") == None
  {
    if UniProtMatch("", true) {
      UniProtMatchShape("", true);
    }
    if RefSeqMatch("", true) {
      RefSeqMatchShape("", true);
    }
    if EntrezMatch("") {
      EntrezMatchShape("");
    }
  }

  /** A six-character accession is UniProt. */
  lemma {:induction false} UniProtExample()
    ensures FindProteinType("P12345") == Some(UniProt)
  {
    var p := "P12345";
    assert p[..6] == p && p[6..6] == [] && UniProtSecondCore(p);
    assert UniProtSecondShape(p[..6], true);
  }

  /** A protein accession with its RefSeq code is RefSeq. */
  lemma {:induction false} RefSeqExample()
    ensures FindProteinType("NP_000001") == Some(RefSeq)
  {
    var n := "NP_000001";
    assert n[..9] == n && n[..9][..9] == n && n[..2] == "NP" && n[9..] == [];
    assert RefSeqAccession(n);
    assert RefSeqShape(n[..9]);
    RefSeqShapedIsRefSeq(n);
  }

  /** Capitals followed by digits, with no underscore, are Entrez. */
  lemma {:induction false} EntrezExample()
    ensures FindProteinType("ABC123") == Some(Entrez)
  {
    var a := "ABC123";
    assert a[..6] == a && a[..3] == "ABC" && a[3..6] == "123" && a[6..] == [];
    assert EntrezShape(a[..6]);
    if UniProtMatch(a, true) {
      UniProtMatchShape(a, true);
    }
    if RefSeqMatch(a, true) {
      RefSeqMatchShape(a, true);
    }
  }

  /** Lower-case text matches no pattern and its node label is "None_protein". */
  lemma {:induction false} UnclassifiedExample()
    ensures FindProteinType("abc") == None
    ensures NodeLabel("abc") == "None_protein"
  {
    var x := "abc";
    if UniProtMatch(x, true) {
      UniProtMatchShape(x, true);
    }
    if RefSeqMatch(x, true) {
      RefSeqMatchShape(x, true);
    }
    if EntrezMatch(x) {
      EntrezMatchShape(x);
    }
  }

  /** The classes hold a literal ',' and space, so "A1B, 5" counts as UniProt. */
  lemma {:induction false} CommaAndSpaceAreAccepted()
    ensures FindProteinType("A1B, 5") == Some(UniProt)
  {
    var t := "A1B, 5";
    assert t[..6] == t && t[2..6] == "B, 5";
    assert UniProtFirstShape(t[..6]);
  }
}
