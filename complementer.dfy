/** The reverse complementer (`reverse_complement`): map A<->T, C<->G, N->N
    (any other character passes through) and reverse the whole string. */
module Complementer {
  import opened Normalizer

  /** `str.maketrans("ACGTN", "TGCAN")` applied to one character. */
  function Complement(c: char): (r: char)
    ensures IsBase(c) <==> IsBase(r)
    ensures !IsBase(c) ==> r == c
    ensures c == 'N' ==> r == 'N'
  {
    match c
    case 'A' => 'T'
    case 'T' => 'A'
    case 'C' => 'G'
    case 'G' => 'C'
    case 'N' => 'N'
    case _ => c
  }

  /** `s[::-1]`. */
  function Reverse(s: string): (r: string)
    ensures |r| == |s|
    ensures forall i :: 0 <= i < |s| ==> r[i] == s[|s| - 1 - i]
  {
    if s == [] then [] else Reverse(s[1..]) + [s[0]]
  }

  /** `reverse_complement(s)`: the complement of each character, in reverse
      order; position i of the result is the complement of position
      |s| - 1 - i of s. */
  function ReverseComplement(s: string): (r: string)
    ensures |r| == |s|
    ensures forall i :: 0 <= i < |s| ==> r[i] == Complement(s[|s| - 1 - i])
  {
    Reverse(seq(|s|, i requires 0 <= i < |s| => Complement(s[i])))
  }

  /** The character map is an involution. */
  lemma ComplementInvolution(c: char)
    ensures Complement(Complement(c)) == c
  {
  }

  /** Reverse-complementing twice gives back the original string, whatever
      characters it holds. */
  lemma ReverseComplementInvolution(s: string)
    ensures ReverseComplement(ReverseComplement(s)) == s
  {
    var r := ReverseComplement(s);
    var rr := ReverseComplement(r);
    forall i | 0 <= i < |s| ensures rr[i] == s[i] {
      ComplementInvolution(s[i]);
    }
  }

  /** A normalized sequence stays normalized. */
  lemma ReverseComplementKeepsDna(s: string)
    requires IsDna(s)
    ensures IsDna(ReverseComplement(s))
  {
  }

  /** Characters outside ACGTN are carried over unchanged, not rejected. */
  lemma ReverseComplementPassesThrough(s: string, i: nat)
    requires i < |s| && !IsBase(s[i])
    ensures ReverseComplement(s)[|s| - 1 - i] == s[i]
  {
  }

  /** `reverse_complement("AACGTN")` is "NACGTT"; "acgt" comes back reversed, untouched. */
  lemma ReverseComplementExamples()
    ensures ReverseComplement("AACGTN") == "NACGTT"
    ensures ReverseComplement("acgt") == "tgca"
  {
  }
}
