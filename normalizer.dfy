/** The sequence normalizer (`normalize_dna`): strip every whitespace
    character, upper-case, and reject any character outside {A, C, G, T, N},
    naming the distinct offenders in ascending order. */
module Normalizer {
  import opened Outcomes
  import opened Text

  /** The alphabet of a normalized sequence. */
  predicate IsBase(c: char)
  {
    c == 'A' || c == 'C' || c == 'G' || c == 'T' || c == 'N'
  }

  /** A normalized sequence: every character is a base. */
  predicate IsDna(s: string)
  {
    forall i :: 0 <= i < |s| ==> IsBase(s[i])
  }

  /** The text normalize_dna validates: whitespace removed, then
      upper-cased, so it is no longer than raw and holds neither whitespace
      nor a lower-case letter. */
  function Cleaned(raw: string): (r: string)
    ensures |r| <= |raw|
    ensures forall i :: 0 <= i < |r| ==> !IsSpace(r[i]) && !('a' <= r[i] <= 'z')
  {
    UpperAll(RemoveSpace(raw))
  }

  /** The characters of t that are not bases, in order, repeats included:
      no longer than t, and none of them a base. */
  function NonBases(t: string): (r: string)
    ensures |r| <= |t|
    ensures forall i :: 0 <= i < |r| ==> !IsBase(r[i])
  {
    if t == [] then []
    else (if IsBase(t[0]) then [] else [t[0]]) + NonBases(t[1..])
  }

  /** NonBases keeps exactly the characters of t that are not bases. */
  lemma {:induction false} NonBasesMembers(t: string)
    ensures forall c :: c in NonBases(t) <==> c in t && !IsBase(c)
  {
    if t != [] {
      NonBasesMembers(t[1..]);
      assert forall c :: c in t <==> c == t[0] || c in t[1..];
    }
  }

  /** A normalized sequence has no non-bases. */
  lemma {:induction false} NonBasesOfDna(t: string)
    requires IsDna(t)
    ensures NonBases(t) == []
  {
    if t != [] {
      NonBasesOfDna(t[1..]);
    }
  }

  predicate StrictlyIncreasing(s: string)
  {
    forall i, j :: 0 <= i < j < |s| ==> s[i] < s[j]
  }

  /** Adds c to a list of characters, before the first one not below it,
      unless it is already there. */
  function Insert(xs: string, c: char): (r: string)
    ensures forall x :: x in r <==> x in xs || x == c
  {
    if xs == [] then [c]
    else if c == xs[0] then xs
    else if c < xs[0] then [c] + xs
    else [xs[0]] + Insert(xs[1..], c)
  }

  /** Insertion keeps an ascending list of distinct characters so. */
  lemma {:induction false} InsertSorted(xs: string, c: char)
    requires StrictlyIncreasing(xs)
    ensures StrictlyIncreasing(Insert(xs, c))
  {
    if xs == [] || c == xs[0] {
    } else if c < xs[0] {
      var r := [c] + xs;
      assert Insert(xs, c) == r;
      forall i, j | 0 <= i < j < |r| ensures r[i] < r[j] {
        assert r[j] == xs[j - 1];
        if i > 0 {
          assert r[i] == xs[i - 1];
        } else if j > 1 {
          assert xs[0] < xs[j - 1];
        }
      }
    } else {
      InsertSorted(xs[1..], c);
      forall k | 0 <= k < |xs[1..]| ensures xs[0] < xs[1..][k] {
        assert xs[1..][k] == xs[k + 1];
      }
      InsertAbove(xs[1..], c, xs[0]);
      var rest := Insert(xs[1..], c);
      var r := [xs[0]] + rest;
      assert Insert(xs, c) == r;
      forall i, j | 0 <= i < j < |r| ensures r[i] < r[j] {
        assert r[j] == rest[j - 1];
        if i > 0 {
          assert r[i] == rest[i - 1];
        }
      }
    }
  }

  /** A bound below every character of xs and below c stays below every
      character of Insert(xs, c). */
  lemma {:induction false} InsertAbove(xs: string, c: char, b: char)
    requires forall k :: 0 <= k < |xs| ==> b < xs[k]
    requires b < c
    ensures forall k :: 0 <= k < |Insert(xs, c)| ==> b < Insert(xs, c)[k]
  {
    if xs != [] && c > xs[0] {
      InsertAbove(xs[1..], c, b);
      var rest := Insert(xs[1..], c);
      var r := [xs[0]] + rest;
      assert Insert(xs, c) == r;
      forall k | 0 <= k < |r| ensures b < r[k] {
        if k > 0 {
          assert r[k] == rest[k - 1];
        }
      }
    } else if xs != [] && c < xs[0] {
      var r := [c] + xs;
      assert Insert(xs, c) == r;
      forall k | 0 <= k < |r| ensures b < r[k] {
        if k > 0 {
          assert r[k] == xs[k - 1];
        }
      }
    }
  }

  /** `sorted(set(cs))`: the distinct characters of cs, ascending by code point. */
  function SortedDistinct(cs: string): (r: string)
    ensures forall x :: x in r <==> x in cs
  {
    if cs == [] then [] else Insert(SortedDistinct(cs[1..]), cs[0])
  }

  /** The list sorted(set(cs)) is ascending without repeats. */
  lemma {:induction false} SortedDistinctSorted(cs: string)
    ensures StrictlyIncreasing(SortedDistinct(cs))
  {
    if cs != [] {
      SortedDistinctSorted(cs[1..]);
      InsertSorted(SortedDistinct(cs[1..]), cs[0]);
    }
  }

  /** `normalize_dna(raw)`. */
  function Normalize(raw: string): (r: Result<string>)
    ensures r.Ok? ==> IsDna(r.value)
    ensures r.Err? ==> r.error.InvalidBases? && r.error.bases != [] && StrictlyIncreasing(r.error.bases)
  {
    var t := Cleaned(raw);
    var invalid := SortedDistinct(NonBases(t));
    NonBasesMembers(t);
    SortedDistinctSorted(NonBases(t));
    if invalid != [] then Err(InvalidBases(invalid)) else Ok(t)
  }

  /** A character of the cleaned text is the upper-case form of some
      non-whitespace character of the raw text, and every such form is one. */
  lemma CleanedMembers(raw: string, c: char)
    ensures c in Cleaned(raw) <==> exists i :: 0 <= i < |raw| && !IsSpace(raw[i]) && Upper(raw[i]) == c
  {
    var t := RemoveSpace(raw);
    RemoveSpaceKeeps(raw);
    if c in Cleaned(raw) {
      var j :| 0 <= j < |t| && Cleaned(raw)[j] == c;
      assert t[j] in t;
      var i :| 0 <= i < |raw| && raw[i] == t[j];
    }
    if exists i :: 0 <= i < |raw| && !IsSpace(raw[i]) && Upper(raw[i]) == c {
      var i :| 0 <= i < |raw| && !IsSpace(raw[i]) && Upper(raw[i]) == c;
      assert raw[i] in t;
      var j :| 0 <= j < |t| && t[j] == raw[i];
      assert Cleaned(raw)[j] == c;
    }
  }

  /** Cleaning keeps the input's order: the cleaned a + b is the cleaned a
      followed by the cleaned b, and one character becomes its upper-case
      form unless it is whitespace, in which case it is dropped. */
  lemma CleanedAppend(a: string, b: string)
    ensures Cleaned(a + b) == Cleaned(a) + Cleaned(b)
    ensures |a| == 1 ==> Cleaned(a) == if IsSpace(a[0]) then [] else [Upper(a[0])]
  {
    RemoveSpaceAppend(a, b);
    UpperAllAppend(RemoveSpace(a), RemoveSpace(b));
  }

  /** The five bases in upper and in lower case. */
  const BaseLetters: set<char> := {'A', 'C', 'G', 'T', 'N', 'a', 'c', 'g', 't', 'n'}

  /** The characters that upper-case to a base are the five bases in either
      case. */
  lemma UpperIsBase(c: char)
    ensures IsBase(Upper(c)) <==> c in BaseLetters
  {
  }

  /** normalize_dna fails exactly when some non-whitespace character, once
      upper-cased, is not a base. */
  lemma NormalizeFailsIff(raw: string)
    ensures Normalize(raw).Err? <==>
      exists i :: 0 <= i < |raw| && !IsSpace(raw[i]) && !IsBase(Upper(raw[i]))
  {
    var t := Cleaned(raw);
    NonBasesMembers(t);
    if Normalize(raw).Err? {
      var c := SortedDistinct(NonBases(t))[0];
      CleanedMembers(raw, c);
    } else if exists i :: 0 <= i < |raw| && !IsSpace(raw[i]) && !IsBase(Upper(raw[i])) {
      var i :| 0 <= i < |raw| && !IsSpace(raw[i]) && !IsBase(Upper(raw[i]));
      CleanedMembers(raw, Upper(raw[i]));
      assert Upper(raw[i]) in SortedDistinct(NonBases(t));
    }
  }

  /** normalize_dna accepts exactly the texts whose non-whitespace
      characters are bases, in upper or lower case. */
  lemma NormalizeAlphabet(raw: string)
    ensures Normalize(raw).Ok? <==>
      forall i :: 0 <= i < |raw| && !IsSpace(raw[i]) ==> raw[i] in BaseLetters
  {
    NormalizeFailsIff(raw);
    forall i | 0 <= i < |raw| {
      UpperIsBase(raw[i]);
    }
  }

  /** On failure the error lists, ascending and without repeats, exactly the
      upper-cased non-whitespace characters of raw that are not bases. */
  lemma NormalizeOffenders(raw: string, c: char)
    requires Normalize(raw).Err?
    ensures StrictlyIncreasing(Normalize(raw).error.bases)
    ensures c in Normalize(raw).error.bases <==>
      !IsBase(c) && exists i :: 0 <= i < |raw| && !IsSpace(raw[i]) && Upper(raw[i]) == c
  {
    CleanedMembers(raw, c);
    NonBasesMembers(Cleaned(raw));
  }

  /** On success the result is the raw text with whitespace removed and
      upper-cased, and it holds only bases (so no whitespace). */
  lemma NormalizeSucceeds(raw: string)
    requires Normalize(raw).Ok?
    ensures Normalize(raw).value == UpperAll(RemoveSpace(raw))
    ensures forall i :: 0 <= i < |Normalize(raw).value| ==>
      IsBase(Normalize(raw).value[i]) && !IsSpace(Normalize(raw).value[i])
  {
    forall i | 0 <= i < |Normalize(raw).value| ensures !IsSpace(Normalize(raw).value[i]) {
      BaseIsCanonical(Normalize(raw).value[i]);
    }
  }

  /** A base is not whitespace and is its own upper-case form. */
  lemma BaseIsCanonical(c: char)
    requires IsBase(c)
    ensures !IsSpace(c) && Upper(c) == c
  {
  }

  /** A normalized sequence normalizes to itself. */
  lemma NormalizeFixesDna(s: string)
    requires IsDna(s)
    ensures Normalize(s) == Ok(s)
  {
    forall i | 0 <= i < |s| ensures !IsSpace(s[i]) && Upper(s[i]) == s[i] {
      BaseIsCanonical(s[i]);
    }
    RemoveSpaceClean(s);
    assert RemoveSpace(s) == s;
    assert UpperAll(s) == s;
    NonBasesOfDna(s);
  }

  /** Normalizing a normalized sequence gives it back unchanged. */
  lemma {:induction false} NormalizeIdempotent(raw: string)
    requires Normalize(raw).Ok?
    ensures Normalize(Normalize(raw).value) == Normalize(raw)
  {
    NormalizeFixesDna(Normalize(raw).value);
  }

  /** Empty or all-whitespace input, and only such input, normalizes to "". */
  lemma NormalizeBlank(raw: string)
    ensures Normalize(raw) == Ok("") <==> forall i :: 0 <= i < |raw| ==> IsSpace(raw[i])
  {
    RemoveSpaceBlank(raw);
    if forall i :: 0 <= i < |raw| ==> IsSpace(raw[i]) {
      assert Cleaned(raw) == "";
    }
  }

  lemma CleanedSpaced()
    ensures Cleaned("AC GT") == "ACGT"
  {
    assert RemoveSpace("AC GT") == "ACGT" by {
      assert "AC GT"[1..] == "C GT" && "C GT"[1..] == " GT" && " GT"[1..] == "GT";
      assert "GT"[1..] == "T" && "T"[1..] == "";
    }
    assert UpperAll("ACGT") == "ACGT";
  }

  /** normalize_dna("AC GT") is "ACGT": whitespace anywhere is dropped. */
  lemma NormalizeSpacedExample()
    ensures Normalize("AC GT") == Ok("ACGT")
  {
    CleanedSpaced();
    assert NonBases("ACGT") == [] by {
      assert IsDna("ACGT");
      NonBasesOfDna("ACGT");
    }
  }

  lemma CleanedLower()
    ensures Cleaned("a\tc\n") == "AC"
  {
    assert RemoveSpace("a\tc\n") == "ac" by {
      var raw := "a\tc\n";
      assert raw[1..] == "\tc\n" && raw[2..] == "c\n" && raw[3..] == "\n" && raw[4..] == "";
    }
    assert UpperAll("ac") == "AC";
  }

  /** Lower case is accepted and upper-cased; tabs and newlines are dropped. */
  lemma NormalizeLowerExample()
    ensures Normalize("a\tc\n") == Ok("AC")
  {
    CleanedLower();
    assert NonBases("AC") == [] by {
      assert IsDna("AC");
      NonBasesOfDna("AC");
    }
  }

  lemma CleanedReject()
    ensures Cleaned("ACGTX") == "ACGTX"
  {
    var s := "ACGTX";
    assert forall i :: 0 <= i < |s| ==> !IsSpace(s[i]) && Upper(s[i]) == s[i];
    RemoveSpaceClean(s);
    assert UpperAll(s) == s;
  }

  lemma NonBasesReject()
    ensures NonBases("ACGTX") == "X"
  {
    assert "ACGTX"[1..] == "CGTX" && "CGTX"[1..] == "GTX" && "GTX"[1..] == "TX";
    assert "TX"[1..] == "X" && "X"[1..] == "";
  }

  /** normalize_dna("ACGTX") fails naming X. */
  lemma NormalizeRejectExample()
    ensures Normalize("ACGTX") == Err(InvalidBases("X"))
    ensures Message(InvalidBases("X")) == "DNA contains invalid bases: X"
  {
    NormalizeX();
    MessageX();
  }

  lemma NormalizeX()
    ensures Normalize("ACGTX") == Err(InvalidBases("X"))
  {
    CleanedReject();
    NonBasesReject();
    assert SortedDistinct("X") == "X";
  }

  lemma MessageX()
    ensures Message(InvalidBases("X")) == "DNA contains invalid bases: X"
  {
  }

  lemma CleanedZxz()
    ensures Cleaned("zxz") == "ZXZ"
  {
    var s := "zxz";
    assert forall i :: 0 <= i < |s| ==> !IsSpace(s[i]);
    RemoveSpaceClean(s);
    assert UpperAll(s) == "ZXZ";
  }

  lemma OffendersZxz()
    ensures SortedDistinct(NonBases("ZXZ")) == "XZ"
  {
    assert NonBases("ZXZ") == "ZXZ" by {
      assert "ZXZ"[1..] == "XZ" && "XZ"[1..] == "Z" && "Z"[1..] == "";
    }
    assert "ZXZ"[1..] == "XZ" && "XZ"[1..] == "Z" && "Z"[1..] == "";
    assert SortedDistinct("Z") == "Z";
    assert SortedDistinct("XZ") == "XZ";
    assert Insert("XZ", 'Z') == "XZ";
  }

  /** Offenders are listed once each, in ascending order: "zxz" names X, Z. */
  lemma NormalizeRejectSortedExample()
    ensures Normalize("zxz") == Err(InvalidBases("XZ"))
    ensures Message(InvalidBases("XZ")) == "DNA contains invalid bases: X, Z"
  {
    NormalizeZxz();
    JoinXz();
  }

  lemma NormalizeZxz()
    ensures Normalize("zxz") == Err(InvalidBases("XZ"))
  {
    CleanedZxz();
    OffendersZxz();
  }

  lemma JoinXz()
    ensures JoinChars("XZ") == "X, Z"
  {
    assert "XZ"[1..] == "Z";
  }
}
