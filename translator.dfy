/** The codon translator (`translate_dna`): check the frame, normalize the
    sequence, then read non-overlapping codons from offset frame - 1,
    dropping a trailing one or two bases, and optionally stop before the
    first stop codon. */
module Translator {
  import opened Outcomes
  import opened Normalizer
  import opened Codons

  /** How many whole codons fit in a sequence of length len from offset start. */
  function CodonCount(len: nat, start: nat): nat
  {
    if start <= len then (len - start) / 3 else 0
  }

  /** The amino acid of the codon at offset i. */
  function AminoAt(s: string, i: nat): char
    requires i + 3 <= |s|
  {
    Lookup(s[i..i + 3])
  }

  /** The amino acids of the codons at start, start + 3, ... while a whole
      codon remains: one letter per whole codon. */
  function ReadingFrame(s: string, start: nat): (r: string)
    ensures |r| == CodonCount(|s|, start)
    decreases |s| - start
  {
    if start + 3 <= |s| then [AminoAt(s, start)] + ReadingFrame(s, start + 3) else []
  }

  /** Letter j of the reading frame is the amino acid of the codon at
      start + 3 * j, which lies wholly inside s. */
  lemma {:induction false} ReadingFrameAt(s: string, start: nat, j: nat)
    requires j < |ReadingFrame(s, start)|
    ensures start + 3 * j + 3 <= |s|
    ensures ReadingFrame(s, start)[j] == AminoAt(s, start + 3 * j)
    decreases j
  {
    if j > 0 {
      ReadingFrameAt(s, start + 3, j - 1);
    }
  }

  /** Letter j of p is the table entry of the codon at start + 3 * j, which
      lies wholly inside s. */
  predicate CodonLetters(s: string, start: nat, p: string)
  {
    forall j :: 0 <= j < |p| ==>
      start + 3 * j + 3 <= |s| && p[j] == Lookup(s[start + 3 * j..start + 3 * j + 3])
  }

  /** The reading frame from start has one letter per whole codon, leaving
      fewer than three bases over, and letter j is the amino acid of the codon
      at start + 3 * j. */
  lemma ReadingFrameFull(s: string, start: nat)
    ensures |ReadingFrame(s, start)| == (if |s| >= start then (|s| - start) / 3 else 0)
    ensures |s| >= start ==> 0 <= |s| - start - 3 * |ReadingFrame(s, start)| < 3
    ensures CodonLetters(s, start, ReadingFrame(s, start))
  {
    forall j | 0 <= j < |ReadingFrame(s, start)|
      ensures start + 3 * j + 3 <= |s| && ReadingFrame(s, start)[j] == Lookup(s[start + 3 * j..start + 3 * j + 3])
    {
      ReadingFrameAt(s, start, j);
    }
  }

  /** The longest prefix of p that holds no stop symbol. */
  function UpToStop(p: string): (r: string)
    ensures |r| <= |p| && r == p[..|r|]
    ensures '*' !in r
    ensures |r| == |p| || p[|r|] == '*'
  {
    if p == [] || p[0] == '*' then [] else [p[0]] + UpToStop(p[1..])
  }

  /** A stop-free head passes through UpToStop whole. */
  lemma {:induction false} UpToStopAfter(a: string, b: string)
    requires '*' !in a
    ensures UpToStop(a + b) == a + UpToStop(b)
  {
    if a == [] {
      assert a + b == b;
    } else {
      var t := a[1..];
      assert a == [a[0]] + t;
      UpToStopAfter(t, b);
      assert (a + b)[1..] == t + b;
      assert UpToStop(a + b) == [a[0]] + UpToStop(t + b);
      assert [a[0]] + (t + UpToStop(b)) == a + UpToStop(b);
    }
  }

  /** `translate_dna(sequence, frame, stop_at_stop)`, stated as a value: the
      frame is checked first, then the sequence is normalized, then codons are
      translated, cut before the first stop codon when asked to. */
  function Translation(sequence: string, frame: int, stopAtStop: bool): (r: Result<string>)
    ensures r.Ok? <==> frame in {1, 2, 3} && Normalize(sequence).Ok?
    ensures r.Ok? ==> |r.value| <= |Normalize(sequence).value| / 3
    ensures r.Ok? && stopAtStop ==> '*' !in r.value
  {
    if frame != 1 && frame != 2 && frame != 3 then Err(InvalidFrame)
    else
      match Normalize(sequence)
      case Err(e) => Err(e)
      case Ok(s) =>
        var aminoAcids := ReadingFrame(s, frame - 1);
        Ok(if stopAtStop then UpToStop(aminoAcids) else aminoAcids)
  }

  /** One turn of the translation loop: the codon at i is the head of the
      rest of the frame. */
  lemma FrameStep(s: string, i: nat, acc: string)
    requires i + 3 <= |s|
    ensures ReadingFrame(s, i)[0] == AminoAt(s, i)
    ensures acc + ReadingFrame(s, i) == (acc + [AminoAt(s, i)]) + ReadingFrame(s, i + 3)
  {
    assert ReadingFrame(s, i) == [AminoAt(s, i)] + ReadingFrame(s, i + 3);
  }

  /** Stopping where the rest of the frame is empty or starts with a stop
      codon yields the stop-free prefix. */
  lemma StopPrefix(acc: string, rest: string)
    requires '*' !in acc
    requires rest == [] || rest[0] == '*'
    ensures UpToStop(acc + rest) == acc
  {
    UpToStopAfter(acc, rest);
    assert acc + [] == acc;
  }

  /** The loop of `translate_dna` over `range(start, len(s) - 2, 3)`:
      one amino acid per codon, breaking at a stop codon when stopAtStop
      holds. */
  method TranslateFrame(s: string, start: nat, stopAtStop: bool) returns (aminoAcids: string)
    ensures aminoAcids == if stopAtStop then UpToStop(ReadingFrame(s, start)) else ReadingFrame(s, start)
  {
    aminoAcids := [];
    var i := start;
    while i < |s| - 2
      invariant start <= i
      invariant aminoAcids + ReadingFrame(s, i) == ReadingFrame(s, start)
      invariant stopAtStop ==> '*' !in aminoAcids
      decreases |s| - i
    {
      var aa := AminoAt(s, i);
      FrameStep(s, i, aminoAcids);
      if stopAtStop && aa == '*' {
        StopPrefix(aminoAcids, ReadingFrame(s, i));
        return;
      }
      aminoAcids := aminoAcids + [aa];
      i := i + 3;
    }
    assert ReadingFrame(s, i) == [];
    if stopAtStop {
      StopPrefix(aminoAcids, []);
    }
    assert aminoAcids + [] == aminoAcids;
  }

  /** `translate_dna(sequence, frame, stop_at_stop)`: check the frame,
      normalize, then run the codon loop from offset frame - 1. */
  method TranslateDna(sequence: string, frame: int, stopAtStop: bool) returns (r: Result<string>)
    ensures r == Translation(sequence, frame, stopAtStop)
  {
    if frame != 1 && frame != 2 && frame != 3 {
      return Err(InvalidFrame);
    }
    var normalized := Normalize(sequence);
    if normalized.Err? {
      return Err(normalized.error);
    }
    var aminoAcids := TranslateFrame(normalized.value, frame - 1, stopAtStop);
    r := Ok(aminoAcids);
  }

  /** A frame outside {1, 2, 3} is rejected before the sequence is looked
      at, so it wins over invalid bases. */
  lemma TranslationFrameFirst(sequence: string, frame: int, stopAtStop: bool)
    requires frame !in {1, 2, 3}
    ensures Translation(sequence, frame, stopAtStop) == Err(InvalidFrame)
    ensures Message(Translation(sequence, frame, stopAtStop).error) == "Frame must be 1, 2, or 3."
  {
  }

  /** With a valid frame, invalid bases fail exactly as normalize_dna does. */
  lemma TranslationInvalidBases(sequence: string, frame: int, stopAtStop: bool)
    requires frame in {1, 2, 3} && Normalize(sequence).Err?
    ensures Translation(sequence, frame, stopAtStop) == Err(Normalize(sequence).error)
  {
  }

  /** Without early stop the protein has one letter per whole codon from
      offset frame - 1, max(0, floor((L - (frame - 1)) / 3)) letters for a
      normalized length L, letter j being the table entry of the codon at
      frame - 1 + 3 * j; a trailing one or two bases are dropped. */
  lemma TranslationFull(sequence: string, frame: int) returns (s: string, p: string)
    requires frame in {1, 2, 3} && Normalize(sequence).Ok?
    ensures Normalize(sequence) == Ok(s) && Translation(sequence, frame, false) == Ok(p)
    ensures |p| == (if |s| >= frame - 1 then (|s| - (frame - 1)) / 3 else 0)
    ensures |s| >= frame - 1 ==> 0 <= |s| - (frame - 1) - 3 * |p| < 3
    ensures CodonLetters(s, frame - 1, p)
  {
    s := Normalize(sequence).value;
    p := ReadingFrame(s, frame - 1);
    ReadingFrameFull(s, frame - 1);
  }

  /** With early stop the protein is the longest stop-free prefix of the full
      translation: it holds no `*`, and it is either the whole translation or
      the full translation has `*` right after it. */
  lemma TranslationEarlyStop(sequence: string, frame: int)
    requires Translation(sequence, frame, true).Ok?
    ensures var q := Translation(sequence, frame, true).value;
      var p := Translation(sequence, frame, false);
      && p.Ok?
      && q == p.value[..|q|]
      && '*' !in q
      && (|q| == |p.value| || p.value[|q|] == '*')
  {
  }

  /** Errors do not depend on stopAtStop. */
  lemma TranslationErrorsAgree(sequence: string, frame: int)
    ensures Translation(sequence, frame, true).Err? <==> Translation(sequence, frame, false).Err?
    ensures Translation(sequence, frame, true).Err? ==>
      Translation(sequence, frame, true).error == Translation(sequence, frame, false).error
  {
  }

  /** On a normalized sequence and a valid frame, translation is the
      reading frame from offset frame - 1, cut at the first stop if asked. */
  lemma TranslationOfDna(s: string, frame: int, stopAtStop: bool)
    requires IsDna(s) && frame in {1, 2, 3}
    ensures Translation(s, frame, stopAtStop)
      == Ok(if stopAtStop then UpToStop(ReadingFrame(s, frame - 1)) else ReadingFrame(s, frame - 1))
  {
    NormalizeFixesDna(s);
  }

  lemma ReadingFrameMkStop()
    ensures ReadingFrame("ATGAAATAG", 0) == "MK*"
  {
    var s := "ATGAAATAG";
    assert s[0..3] == "ATG" && s[3..6] == "AAA" && s[6..9] == "TAG";
    assert ReadingFrame(s, 9) == [];
    assert ReadingFrame(s, 6) == "*";
    assert ReadingFrame(s, 3) == "K*";
  }

  /** translate_dna("ATGAAATAG") is "MK*". */
  lemma TranslationStopExample()
    ensures Translation("ATGAAATAG", 1, false) == Ok("MK*")
  {
    assert IsDna("ATGAAATAG");
    TranslationOfDna("ATGAAATAG", 1, false);
    ReadingFrameMkStop();
  }

  /** translate_dna("ATGAAATAG", stop_at_stop=True) is "MK". */
  lemma TranslationEarlyStopExample()
    ensures Translation("ATGAAATAG", 1, true) == Ok("MK")
  {
    assert IsDna("ATGAAATAG");
    TranslationOfDna("ATGAAATAG", 1, true);
    ReadingFrameMkStop();
    UpToStopMk();
  }

  lemma UpToStopMk()
    ensures UpToStop("MK*") == "MK"
  {
    assert "MK*"[1..] == "K*" && "K*"[1..] == "*";
    assert UpToStop("*") == [];
  }

  lemma ReadingFrameXm()
    ensures ReadingFrame("NNNATG", 0) == "XM"
  {
    var s := "NNNATG";
    assert s[0..3] == "NNN" && s[3..6] == "ATG";
    assert ReadingFrame(s, 6) == [];
    assert ReadingFrame(s, 3) == "M";
  }

  /** translate_dna("NNNATG") is "XM": the codon NNN reads as X. */
  lemma TranslationUnknownExample()
    ensures Translation("NNNATG", 1, false) == Ok("XM")
  {
    assert IsDna("NNNATG");
    TranslationOfDna("NNNATG", 1, false);
    ReadingFrameXm();
  }

  lemma ReadingFrameC()
    ensures ReadingFrame("ATGCA", 1) == "C"
  {
    var s := "ATGCA";
    assert s[1..4] == "TGC";
    assert ReadingFrame(s, 4) == [];
  }

  /** translate_dna("ATGCA", frame=2) reads TGC only: "C". */
  lemma TranslationFrameTwoExample()
    ensures Translation("ATGCA", 2, false) == Ok("C")
  {
    assert IsDna("ATGCA");
    TranslationOfDna("ATGCA", 2, false);
    ReadingFrameC();
  }
}
