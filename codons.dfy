/** The standard genetic code (NCBI translation table 1) as the engine's
    codon table, and the lookup that reads any codon outside it as X. */
module Codons {

  predicate IsConcreteBase(c: char)
  {
    c == 'A' || c == 'C' || c == 'G' || c == 'T'
  }

  /** A three-letter word over A, C, G, T, i.e. a key of the table. */
  predicate IsCodon(codon: string)
  {
    |codon| == 3 && IsConcreteBase(codon[0]) && IsConcreteBase(codon[1]) && IsConcreteBase(codon[2])
  }

  /** The twenty one-letter amino-acid codes. */
  predicate IsAminoAcid(c: char)
  {
    c in {'A', 'C', 'D', 'E', 'F', 'G', 'H', 'I', 'K', 'L', 'M', 'N', 'P', 'Q', 'R', 'S', 'T', 'V', 'W', 'Y'}
  }

  /** The entries of `CODON_TABLE`, in its order: the amino acid of the codon
      x y z, `*` for a stop codon. Triples outside A, C, G, T are no entry of
      the table; they get the placeholder X here and are kept out of
      CodonTable below. */
  function StandardCode(x: char, y: char, z: char): char
  {
    match (x, y, z)
    case ('T', 'T', 'T') => 'F' case ('T', 'T', 'C') => 'F' case ('T', 'T', 'A') => 'L' case ('T', 'T', 'G') => 'L'
    case ('C', 'T', 'T') => 'L' case ('C', 'T', 'C') => 'L' case ('C', 'T', 'A') => 'L' case ('C', 'T', 'G') => 'L'
    case ('A', 'T', 'T') => 'I' case ('A', 'T', 'C') => 'I' case ('A', 'T', 'A') => 'I' case ('A', 'T', 'G') => 'M'
    case ('G', 'T', 'T') => 'V' case ('G', 'T', 'C') => 'V' case ('G', 'T', 'A') => 'V' case ('G', 'T', 'G') => 'V'
    case ('T', 'C', 'T') => 'S' case ('T', 'C', 'C') => 'S' case ('T', 'C', 'A') => 'S' case ('T', 'C', 'G') => 'S'
    case ('C', 'C', 'T') => 'P' case ('C', 'C', 'C') => 'P' case ('C', 'C', 'A') => 'P' case ('C', 'C', 'G') => 'P'
    case ('A', 'C', 'T') => 'T' case ('A', 'C', 'C') => 'T' case ('A', 'C', 'A') => 'T' case ('A', 'C', 'G') => 'T'
    case ('G', 'C', 'T') => 'A' case ('G', 'C', 'C') => 'A' case ('G', 'C', 'A') => 'A' case ('G', 'C', 'G') => 'A'
    case ('T', 'A', 'T') => 'Y' case ('T', 'A', 'C') => 'Y' case ('T', 'A', 'A') => '*' case ('T', 'A', 'G') => '*'
    case ('C', 'A', 'T') => 'H' case ('C', 'A', 'C') => 'H' case ('C', 'A', 'A') => 'Q' case ('C', 'A', 'G') => 'Q'
    case ('A', 'A', 'T') => 'N' case ('A', 'A', 'C') => 'N' case ('A', 'A', 'A') => 'K' case ('A', 'A', 'G') => 'K'
    case ('G', 'A', 'T') => 'D' case ('G', 'A', 'C') => 'D' case ('G', 'A', 'A') => 'E' case ('G', 'A', 'G') => 'E'
    case ('T', 'G', 'T') => 'C' case ('T', 'G', 'C') => 'C' case ('T', 'G', 'A') => '*' case ('T', 'G', 'G') => 'W'
    case ('C', 'G', 'T') => 'R' case ('C', 'G', 'C') => 'R' case ('C', 'G', 'A') => 'R' case ('C', 'G', 'G') => 'R'
    case ('A', 'G', 'T') => 'S' case ('A', 'G', 'C') => 'S' case ('A', 'G', 'A') => 'R' case ('A', 'G', 'G') => 'R'
    case ('G', 'G', 'T') => 'G' case ('G', 'G', 'C') => 'G' case ('G', 'G', 'A') => 'G' case ('G', 'G', 'G') => 'G'
    case _ => 'X'
  }

  /** The 64 three-letter words over A, C, G, T. */
  const ConcreteCodons: set<string> := set x, y, z | x in "ACGT" && y in "ACGT" && z in "ACGT" :: [x, y, z]

  /** `CODON_TABLE`: each of the 64 codons with its entry. */
  const CodonTable: map<string, char> := map codon | codon in ConcreteCodons :: StandardCode(codon[0], codon[1], codon[2])

  /** Every key of the table is a three-letter word over A, C, G, T ... */
  lemma CodonTableKeysConcrete(codon: string)
    requires codon in CodonTable
    ensures |codon| == 3 && IsConcreteBase(codon[0]) && IsConcreteBase(codon[1]) && IsConcreteBase(codon[2])
  {
  }

  /** ... and every such word is a key. */
  lemma CodonTableComplete(codon: string)
    requires |codon| == 3 && IsConcreteBase(codon[0]) && IsConcreteBase(codon[1]) && IsConcreteBase(codon[2])
    ensures codon in CodonTable
  {
    var x, y, z := codon[0], codon[1], codon[2];
    assert codon == [x, y, z];
    assert x in "ACGT" && y in "ACGT" && z in "ACGT";
  }

  /** The table's keys are exactly the three-letter words over A, C, G, T. */
  lemma CodonTableKeys(codon: string)
    ensures codon in CodonTable <==> IsCodon(codon)
  {
    if codon in CodonTable {
      CodonTableKeysConcrete(codon);
    } else if IsCodon(codon) {
      CodonTableComplete(codon);
    }
  }

  /** Every table value is one of the twenty amino-acid letters or `*`. */
  lemma CodonTableValues(codon: string)
    requires codon in CodonTable
    ensures IsAminoAcid(CodonTable[codon]) || CodonTable[codon] == '*'
  {
    var x, y, z := codon[0], codon[1], codon[2];
    assert IsConcreteBase(x) && IsConcreteBase(y) && IsConcreteBase(z);
    assert CodonTable[codon] == StandardCode(x, y, z);
  }

  /** The amino acid a codon translates to, X when it is no key of the
      table; read straight from the table's entries. */
  function Lookup(codon: string): (aa: char)
    ensures aa == 'X' || aa == '*' || IsAminoAcid(aa)
  {
    if IsCodon(codon) then StandardCode(codon[0], codon[1], codon[2]) else 'X'
  }

  /** Lookup is `CODON_TABLE.get(codon, "X")`. */
  lemma LookupIsTableGet(codon: string)
    ensures Lookup(codon) == if codon in CodonTable then CodonTable[codon] else 'X'
  {
    CodonTableKeys(codon);
  }

  /** A codon reads as X exactly when the table lacks it, in particular
      whenever it contains N; otherwise as an amino acid or `*`. */
  lemma LookupMeaning(codon: string)
    ensures Lookup(codon) == 'X' <==> codon !in CodonTable
    ensures Lookup(codon) != 'X' ==> IsAminoAcid(Lookup(codon)) || Lookup(codon) == '*'
    ensures 'N' in codon ==> Lookup(codon) == 'X'
  {
    CodonTableKeys(codon);
    LookupIsTableGet(codon);
    if codon in CodonTable {
      CodonTableValues(codon);
    }
  }

  /** The stop codons are TAA, TAG and TGA, and only they. */
  lemma StopCodons(codon: string)
    ensures Lookup(codon) == '*' <==> codon == "TAA" || codon == "TAG" || codon == "TGA"
  {
    if IsCodon(codon) {
      assert codon == [codon[0], codon[1], codon[2]];
    }
  }

  /** ATG is methionine, the table's last entry GGG glycine, NNN unknown. */
  lemma LookupExamples()
    ensures Lookup("ATG") == 'M' && Lookup("GGG") == 'G' && Lookup("AAA") == 'K'
    ensures Lookup("NNN") == 'X' && Lookup("TAG") == '*'
  {
  }
}
