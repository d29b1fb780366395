/** The motif matcher (`motif_to_regex`, `find_motifs`): a motif over the
    IUPAC-IUB nucleotide ambiguity codes becomes one character class per
    symbol, and every start offset where the classes match the normalized
    sequence is reported, overlapping matches included. */
module Motifs {
  import opened Outcomes
  import opened Text
  import opened Normalizer
  import opened Codons

  /** The fifteen IUPAC-IUB nucleotide codes. */
  const Codes: set<char> := {'A', 'C', 'G', 'T', 'R', 'Y', 'S', 'W', 'K', 'M', 'B', 'D', 'H', 'V', 'N'}

  /** The entry of `IUPAC_TO_REGEX` for a code, one case per entry: a
      single letter for A, C, G, T, a bracketed class of two to four letters
      for the others. */
  function Expansion(symbol: char): (e: string)
    requires symbol in Codes
    ensures 1 <= |e| <= 6
    ensures |e| == 1 <==> IsConcreteBase(symbol)
  {
    match symbol
    case 'A' => "A"
    case 'C' => "C"
    case 'G' => "G"
    case 'T' => "T"
    case 'R' => "[AG]"
    case 'Y' => "[CT]"
    case 'S' => "[GC]"
    case 'W' => "[AT]"
    case 'K' => "[GT]"
    case 'M' => "[AC]"
    case 'B' => "[CGT]"
    case 'D' => "[AGT]"
    case 'H' => "[ACT]"
    case 'V' => "[ACG]"
    case 'N' => "[ACGT]"
  }

  /** `IUPAC_TO_REGEX`: each ambiguity code and the regular-expression text
      (a letter or a bracketed class) that stands for its bases. */
  const IupacToRegex: map<char, string> := map c | c in Codes :: Expansion(c)

  /** The dictionary's keys are exactly the fifteen codes, and each entry is
      the code's expansion: the lookup `IUPAC_TO_REGEX[char]` fails exactly
      for characters outside Codes. */
  lemma IupacToRegexEntries(c: char)
    ensures c in IupacToRegex <==> c in Codes
    ensures c in Codes ==> IupacToRegex[c] == Expansion(c)
  {
  }

  /** The fifteen codes in upper and in lower case. */
  const CodeLetters: set<char> :=
    {'A', 'C', 'G', 'T', 'R', 'Y', 'S', 'W', 'K', 'M', 'B', 'D', 'H', 'V', 'N',
     'a', 'c', 'g', 't', 'r', 'y', 's', 'w', 'k', 'm', 'b', 'd', 'h', 'v', 'n'}

  /** The characters that upper-case to a code are the fifteen codes in
      either case. */
  lemma UpperIsCode(c: char)
    ensures Upper(c) in Codes <==> c in CodeLetters
  {
  }

  /** The bases each code stands for in the IUPAC-IUB nomenclature:
      R purine, Y pyrimidine, S strong, W weak, K keto, M amino, B not A,
      D not C, H not G, V not T, N any base. */
  function BaseSet(symbol: char): (r: set<char>)
    requires symbol in Codes
    ensures r != {}
    ensures forall b :: b in r ==> IsConcreteBase(b)
    ensures IsConcreteBase(symbol) ==> r == {symbol}
    ensures symbol == 'N' ==> r == {'A', 'C', 'G', 'T'}
  {
    match symbol
    case 'A' => {'A'}
    case 'C' => {'C'}
    case 'G' => {'G'}
    case 'T' => {'T'}
    case 'R' => {'A', 'G'}
    case 'Y' => {'C', 'T'}
    case 'S' => {'C', 'G'}
    case 'W' => {'A', 'T'}
    case 'K' => {'G', 'T'}
    case 'M' => {'A', 'C'}
    case 'B' => {'C', 'G', 'T'}
    case 'D' => {'A', 'G', 'T'}
    case 'H' => {'A', 'C', 'T'}
    case 'V' => {'A', 'C', 'G'}
    case 'N' => {'A', 'C', 'G', 'T'}
  }

  /** The characters a regex piece stands for: a bracketed class its
      letters, a plain letter itself. */
  function ClassOf(piece: string): set<char>
  {
    if |piece| >= 2 && piece[0] == '[' && piece[|piece| - 1] == ']'
    then set i | 1 <= i < |piece| - 1 :: piece[i]
    else set i | 0 <= i < |piece| :: piece[i]
  }

  lemma ClassOfLetter(piece: string)
    requires |piece| == 1
    ensures ClassOf(piece) == {piece[0]}
  {
  }

  lemma ClassOfBracket(piece: string)
    requires |piece| >= 2 && piece[0] == '[' && piece[|piece| - 1] == ']'
    ensures forall c :: c in ClassOf(piece) <==> c in piece[1..|piece| - 1]
  {
    forall c | c in piece[1..|piece| - 1] ensures c in ClassOf(piece) {
      var i :| 0 <= i < |piece| - 2 && piece[1..|piece| - 1][i] == c;
      assert piece[i + 1] == c;
    }
  }

  /** A, C, G and T stand for themselves. */
  lemma ExpansionPlainCodes(symbol: char)
    requires IsConcreteBase(symbol)
    ensures ClassOf(Expansion(symbol)) == BaseSet(symbol)
  {
    ClassOfLetter(Expansion(symbol));
  }

  /** The two-base classes R, Y, S, W, K, M. */
  lemma ExpansionTwoBaseCodes(symbol: char)
    requires symbol in {'R', 'Y', 'S', 'W', 'K', 'M'}
    ensures ClassOf(Expansion(symbol)) == BaseSet(symbol)
  {
    var piece := Expansion(symbol);
    ClassOfBracket(piece);
    assert piece[1..3] == [piece[1], piece[2]];
  }

  /** The three- and four-base classes B, D, H, V, N. */
  lemma ExpansionWideCodes(symbol: char)
    requires symbol in {'B', 'D', 'H', 'V', 'N'}
    ensures ClassOf(Expansion(symbol)) == BaseSet(symbol)
  {
    var piece := Expansion(symbol);
    ClassOfBracket(piece);
    if symbol == 'N' {
      assert piece[1..5] == [piece[1], piece[2], piece[3], piece[4]];
    } else {
      assert piece[1..4] == [piece[1], piece[2], piece[3]];
    }
  }

  /** A table entry: a plain letter other than `[`, or `[`, letters other
      than `]`, then `]`. */
  predicate WellFormedPiece(piece: string)
  {
    || (|piece| == 1 && piece[0] != '[')
    || (|piece| >= 2 && piece[0] == '[' && piece[|piece| - 1] == ']'
        && forall i :: 1 <= i < |piece| - 1 ==> piece[i] != ']')
  }

  /** Every entry of the table is a well-formed piece whose class is the
      code's base set: the table and the nomenclature agree. */
  lemma ExpansionMeansBaseSet(symbol: char)
    requires symbol in Codes
    ensures WellFormedPiece(Expansion(symbol))
    ensures ClassOf(Expansion(symbol)) == BaseSet(symbol)
  {
    if IsConcreteBase(symbol) {
      ExpansionPlainCodes(symbol);
    } else if symbol in {'R', 'Y', 'S', 'W', 'K', 'M'} {
      ExpansionTwoBaseCodes(symbol);
    } else {
      ExpansionWideCodes(symbol);
    }
  }

  /** Index of the first character of m that is no ambiguity code, |m| if
      there is none. */
  function FirstUnsupported(m: string): (k: nat)
    ensures k <= |m|
    ensures forall j :: 0 <= j < k ==> m[j] in Codes
    ensures k < |m| ==> m[k] !in Codes
  {
    if m == [] || m[0] !in Codes then 0 else 1 + FirstUnsupported(m[1..])
  }

  /** The motif `motif_to_regex` expands: upper-cased, then stripped;
      empty is refused, then the first symbol that is no code is named. */
  function PrepareMotif(motif: string): (r: Result<string>)
    ensures r == Err(EmptyMotif) <==> Strip(UpperAll(motif)) == []
    ensures r.Ok? ==>
      && r.value == Strip(UpperAll(motif))
      && r.value != []
      && (forall j :: 0 <= j < |r.value| ==> r.value[j] in Codes)
    ensures r.Err? && r.error != EmptyMotif ==>
      && r.error.UnsupportedSymbol?
      && r.error.symbol in Strip(UpperAll(motif))
      && r.error.symbol !in Codes
  {
    var m := Strip(UpperAll(motif));
    if m == [] then Err(EmptyMotif)
    else
      var k := FirstUnsupported(m);
      if k < |m| then Err(UnsupportedSymbol(m[k])) else Ok(m)
  }

  /** The table entries of the symbols of m, concatenated. */
  function RegexText(m: string): (r: string)
    requires forall j :: 0 <= j < |m| ==> m[j] in Codes
    ensures |m| <= |r| <= 6 * |m|
  {
    if m == [] then "" else Expansion(m[0]) + RegexText(m[1..])
  }

  /** `motif_to_regex(motif)`: it fails only for an empty motif or an
      unsupported symbol, and the regex text has at least one character per
      symbol of the trimmed motif. */
  function MotifToRegex(motif: string): (r: Result<string>)
    ensures r.Err? ==> r.error == EmptyMotif || r.error.UnsupportedSymbol?
    ensures r.Ok? ==> 0 < |Strip(UpperAll(motif))| <= |r.value|
  {
    match PrepareMotif(motif)
    case Err(e) => Err(e)
    case Ok(m) => Ok(RegexText(m))
  }

  /** The one character class per motif symbol that the expansion stands for. */
  function Pattern(m: string): seq<set<char>>
    requires forall j :: 0 <= j < |m| ==> m[j] in Codes
  {
    seq(|m|, k requires 0 <= k < |m| => BaseSet(m[k]))
  }

  /** Offset of the first `]` in t at or after k, |t| if there is none. */
  function CloseAt(t: string, k: nat): (c: nat)
    requires k <= |t|
    ensures k <= c <= |t|
    ensures forall i :: k <= i < c ==> t[i] != ']'
    ensures c < |t| ==> t[c] == ']'
    decreases |t| - k
  {
    if k == |t| || t[k] == ']' then k else CloseAt(t, k + 1)
  }

  /** Reads a regex made of plain letters and bracketed classes back into
      its character classes, one per letter or bracket group, so never more
      classes than characters. */
  function Classes(t: string): (r: seq<set<char>>)
    ensures |r| <= |t|
    decreases |t|
  {
    if t == [] then []
    else if t[0] == '[' && CloseAt(t, 1) < |t| then
      var c := CloseAt(t, 1);
      [set i | 1 <= i < c :: t[i]] + Classes(t[c + 1..])
    else [{t[0]}] + Classes(t[1..])
  }

  /** Reading back a well-formed piece followed by more text yields the
      piece's class, then the classes of the rest. */
  lemma ClassesOfPiece(piece: string, rest: string)
    requires WellFormedPiece(piece)
    ensures Classes(piece + rest) == [ClassOf(piece)] + Classes(rest)
  {
    var t := piece + rest;
    if |piece| == 1 {
      assert t[1..] == rest;
      ClassOfLetter(piece);
    } else {
      var c := |piece| - 1;
      assert CloseAt(t, 1) == c by {
        assert forall i :: 1 <= i <= c ==> t[i] == piece[i];
      }
      assert t[c + 1..] == rest;
      assert (set i | 1 <= i < c :: t[i]) == (set i | 1 <= i < c :: piece[i]);
    }
  }

  /** The pattern of a motif is its first symbol's base set, then the
      pattern of the rest. */
  lemma PatternCons(m: string)
    requires m != [] && forall j :: 0 <= j < |m| ==> m[j] in Codes
    ensures Pattern(m) == [BaseSet(m[0])] + Pattern(m[1..])
  {
    var t := [BaseSet(m[0])] + Pattern(m[1..]);
    assert |Pattern(m)| == |t|;
    forall k | 0 <= k < |m| ensures Pattern(m)[k] == t[k] {
      if k > 0 {
        assert t[k] == Pattern(m[1..])[k - 1];
        assert m[1..][k - 1] == m[k];
      }
    }
  }

  /** The regex text motif_to_regex builds reads back as exactly one class
      per motif symbol, the symbol's base set. */
  lemma {:induction false} ClassesOfRegexText(m: string)
    requires forall j :: 0 <= j < |m| ==> m[j] in Codes
    ensures Classes(RegexText(m)) == Pattern(m)
  {
    if m != [] {
      ExpansionMeansBaseSet(m[0]);
      ClassesOfPiece(Expansion(m[0]), RegexText(m[1..]));
      ClassesOfRegexText(m[1..]);
      PatternCons(m);
    } else {
      assert Classes("") == [];
    }
  }

  /** The motif's classes match s at offset p: each symbol's class holds the
      base under it. */
  predicate MatchesAt(s: string, pattern: seq<set<char>>, p: nat)
    requires p + |pattern| <= |s|
  {
    forall k :: 0 <= k < |pattern| ==> s[p + k] in pattern[k]
  }

  /** The zero-width lookahead search: try every offset from p on, one at a
      time, keeping those where the whole pattern fits and matches. */
  function Scan(s: string, pattern: seq<set<char>>, p: nat): (r: seq<nat>)
    ensures forall j :: 0 <= j < |r| ==> p <= r[j] && r[j] + |pattern| <= |s|
    decreases |s| + 1 - p
  {
    if p + |pattern| > |s| then []
    else (if MatchesAt(s, pattern, p) then [p] else []) + Scan(s, pattern, p + 1)
  }

  /** The scan lists an offset exactly when the pattern fits there and
      matches; overlapping matches are all kept. */
  lemma {:induction false} ScanFinds(s: string, pattern: seq<set<char>>, p: nat)
    ensures forall x: nat :: x in Scan(s, pattern, p) <==>
      p <= x && x + |pattern| <= |s| && MatchesAt(s, pattern, x)
    decreases |s| + 1 - p
  {
    if p + |pattern| <= |s| {
      ScanFinds(s, pattern, p + 1);
      var head: seq<nat> := if MatchesAt(s, pattern, p) then [p] else [];
      var rest := Scan(s, pattern, p + 1);
      assert Scan(s, pattern, p) == head + rest;
      forall x: nat
        ensures x in head + rest <==> p <= x && x + |pattern| <= |s| && MatchesAt(s, pattern, x)
      {
        assert x in head + rest <==> x in head || x in rest;
      }
    }
  }

  /** The scan lists offsets in strictly increasing order. */
  lemma {:induction false} ScanAscending(s: string, pattern: seq<set<char>>, p: nat)
    ensures forall i, j :: 0 <= i < j < |Scan(s, pattern, p)| ==>
      Scan(s, pattern, p)[i] < Scan(s, pattern, p)[j]
    decreases |s| + 1 - p
  {
    if p + |pattern| <= |s| {
      ScanAscending(s, pattern, p + 1);
      var rest := Scan(s, pattern, p + 1);
      var head: seq<nat> := if MatchesAt(s, pattern, p) then [p] else [];
      assert Scan(s, pattern, p) == head + rest;
      forall i, j | 0 <= i < j < |head + rest| ensures (head + rest)[i] < (head + rest)[j] {
        assert (head + rest)[j] == rest[j - |head|];
        if i >= |head| {
          assert (head + rest)[i] == rest[i - |head|];
        }
      }
    }
  }

  /** Matching the pattern of a motif is matching each symbol's base set. */
  lemma MatchesPattern(s: string, m: string, p: nat)
    requires forall j :: 0 <= j < |m| ==> m[j] in Codes
    requires p + |m| <= |s|
    ensures MatchesAt(s, Pattern(m), p) <==> forall k :: 0 <= k < |m| ==> s[p + k] in BaseSet(m[k])
  {
    assert |Pattern(m)| == |m|;
    assert forall k :: 0 <= k < |m| ==> Pattern(m)[k] == BaseSet(m[k]);
  }

  /** Scanning for the pattern of a motif lists p exactly when the motif
      fits at p and each base under it lies in its symbol's base set. */
  lemma ScanBaseSets(s: string, m: string)
    requires forall j :: 0 <= j < |m| ==> m[j] in Codes
    ensures forall p: nat :: p in Scan(s, Pattern(m), 0) <==>
      p + |m| <= |s| && forall k :: 0 <= k < |m| ==> s[p + k] in BaseSet(m[k])
  {
    assert |Pattern(m)| == |m|;
    ScanFinds(s, Pattern(m), 0);
    forall p: nat
      ensures p in Scan(s, Pattern(m), 0) <==>
        p + |m| <= |s| && forall k :: 0 <= k < |m| ==> s[p + k] in BaseSet(m[k])
    {
      if p + |m| <= |s| {
        MatchesPattern(s, m, p);
      }
    }
  }

  /** No code's base set holds N, so no window over an N matches. */
  lemma ScanSkipsN(s: string, m: string, p: nat, k: nat)
    requires forall j :: 0 <= j < |m| ==> m[j] in Codes
    requires p + k < |s| && s[p + k] == 'N' && k < |m|
    ensures p !in Scan(s, Pattern(m), 0)
  {
    ScanBaseSets(s, m);
    assert s[p + k] !in BaseSet(m[k]);
  }

  /** `find_motifs(sequence, motif)`: the sequence is normalized first, then
      the motif expanded, then every match offset is listed. */
  function FindMotifs(sequence: string, motif: string): (r: Result<seq<nat>>)
    ensures r.Ok? <==> Normalize(sequence).Ok? && MotifToRegex(motif).Ok?
    ensures r.Ok? ==> forall j :: 0 <= j < |r.value| ==> r.value[j] < |Normalize(sequence).value|
  {
    match Normalize(sequence)
    case Err(e) => Err(e)
    case Ok(s) =>
      match MotifToRegex(motif)
      case Err(e) => Err(e)
      case Ok(regex) => Ok(Scan(s, Classes(regex), 0))
  }

  /** Upper-casing keeps whitespace where it is. */
  lemma UpperKeepsSpace(motif: string)
    ensures forall i :: 0 <= i < |motif| ==> (IsSpace(UpperAll(motif)[i]) <==> IsSpace(motif[i]))
  {
  }

  /** An empty or all-whitespace motif, and only such, fails with
      "Motif cannot be empty." */
  lemma MotifEmpty(motif: string)
    ensures MotifToRegex(motif) == Err(EmptyMotif) <==> forall i :: 0 <= i < |motif| ==> IsSpace(motif[i])
    ensures MotifToRegex(motif) == Err(EmptyMotif) ==>
      Message(MotifToRegex(motif).error) == "Motif cannot be empty."
  {
    UpperKeepsSpace(motif);
    StripBlank(UpperAll(motif));
  }

  /** Otherwise the first symbol of the trimmed, upper-cased motif that is no
      code makes it fail, naming that symbol; an interior space counts. */
  lemma MotifUnsupported(motif: string)
    requires Strip(UpperAll(motif)) != []
    ensures var m := Strip(UpperAll(motif));
      MotifToRegex(motif).Err? <==> exists j :: 0 <= j < |m| && m[j] !in IupacToRegex
    ensures var m := Strip(UpperAll(motif));
      MotifToRegex(motif).Err? ==>
        exists k :: 0 <= k < |m| && MotifToRegex(motif) == Err(UnsupportedSymbol(m[k]))
          && m[k] !in IupacToRegex && forall j :: 0 <= j < k ==> m[j] in IupacToRegex
  {
    var m := Strip(UpperAll(motif));
    var k := FirstUnsupported(m);
    assert PrepareMotif(motif) == if k < |m| then Err(UnsupportedSymbol(m[k])) else Ok(m);
    if k < |m| {
      IupacToRegexEntries(m[k]);
      forall j | 0 <= j < k ensures m[j] in IupacToRegex {
        IupacToRegexEntries(m[j]);
      }
      assert MotifToRegex(motif) == Err(UnsupportedSymbol(m[k]));
    } else {
      forall j | 0 <= j < |m| ensures m[j] in IupacToRegex {
        IupacToRegexEntries(m[j]);
      }
      assert MotifToRegex(motif).Ok?;
    }
  }

  /** On success the regex text is the concatenation of the symbols' table
      entries, and it reads back as one class per symbol of the trimmed,
      upper-cased motif. */
  lemma MotifExpansion(motif: string)
    requires MotifToRegex(motif).Ok?
    ensures var m := Strip(UpperAll(motif));
      && PrepareMotif(motif) == Ok(m)
      && m != []
      && (forall j :: 0 <= j < |m| ==> m[j] in IupacToRegex && m[j] in Codes)
      && MotifToRegex(motif).value == RegexText(m)
      && Classes(MotifToRegex(motif).value) == Pattern(m)
  {
    var m := Strip(UpperAll(motif));
    forall j | 0 <= j < |m| ensures m[j] in IupacToRegex {
      IupacToRegexEntries(m[j]);
    }
    ClassesOfRegexText(m);
  }

  /** find_motifs validates the sequence before it looks at the motif. */
  lemma FindMotifsSequenceFirst(sequence: string, motif: string)
    requires Normalize(sequence).Err?
    ensures FindMotifs(sequence, motif) == Err(Normalize(sequence).error)
  {
  }

  /** With a valid sequence, a bad motif fails as motif_to_regex does. */
  lemma FindMotifsMotifErrors(sequence: string, motif: string)
    requires Normalize(sequence).Ok? && MotifToRegex(motif).Err?
    ensures FindMotifs(sequence, motif) == Err(MotifToRegex(motif).error)
  {
  }

  /** On success the scan is over the normalized sequence with the classes
      of the trimmed, upper-cased motif. */
  lemma FindMotifsScans(sequence: string, motif: string)
    requires Normalize(sequence).Ok? && MotifToRegex(motif).Ok?
    ensures var m := Strip(UpperAll(motif));
      && (forall j :: 0 <= j < |m| ==> m[j] in Codes)
      && FindMotifs(sequence, motif) == Ok(Scan(Normalize(sequence).value, Pattern(m), 0))
  {
    MotifExpansion(motif);
  }

  /** On success the offsets are strictly increasing. */
  lemma FindMotifsAscending(sequence: string, motif: string)
    requires Normalize(sequence).Ok? && MotifToRegex(motif).Ok?
    ensures var r := FindMotifs(sequence, motif);
      r.Ok? && forall i, j :: 0 <= i < j < |r.value| ==> r.value[i] < r.value[j]
  {
    FindMotifsScans(sequence, motif);
    ScanAscending(Normalize(sequence).value, Pattern(Strip(UpperAll(motif))), 0);
  }

  /** On success p is listed exactly when the motif fits at p and every base
      s[p + k] lies in the base set of motif symbol k: overlapping matches
      included. */
  lemma FindMotifsPositions(sequence: string, motif: string)
    requires Normalize(sequence).Ok? && MotifToRegex(motif).Ok?
    ensures var s := Normalize(sequence).value;
      var m := Strip(UpperAll(motif));
      var r := FindMotifs(sequence, motif);
      && r.Ok?
      && (forall j :: 0 <= j < |m| ==> m[j] in Codes)
      && (forall p: nat :: p in r.value <==>
            p + |m| <= |s| && forall k :: 0 <= k < |m| ==> s[p + k] in BaseSet(m[k]))
  {
    FindMotifsScans(sequence, motif);
    ScanBaseSets(Normalize(sequence).value, Strip(UpperAll(motif)));
  }

  /** A position whose window covers an N of the sequence is never reported,
      whatever the motif, N included. */
  lemma FindMotifsSkipsN(sequence: string, motif: string, p: nat, k: nat)
    requires Normalize(sequence).Ok? && MotifToRegex(motif).Ok?
    requires var s := Normalize(sequence).value; p + k < |s| && s[p + k] == 'N'
    requires k < |Strip(UpperAll(motif))|
    ensures p !in FindMotifs(sequence, motif).value
  {
    FindMotifsScans(sequence, motif);
    ScanSkipsN(Normalize(sequence).value, Strip(UpperAll(motif)), p, k);
  }

  /** A code is an upper-case letter, so neither case nor trimming
      changes it. */
  lemma CodeIsCanonical(c: char)
    requires c in Codes
    ensures Upper(c) == c && !IsSpace(c)
  {
  }

  /** A motif written in upper-case codes is expanded as it stands. */
  lemma MotifOfCodes(m: string)
    requires m != [] && forall j :: 0 <= j < |m| ==> m[j] in Codes
    ensures MotifToRegex(m) == Ok(RegexText(m))
  {
    forall j | 0 <= j < |m| ensures Upper(m[j]) == m[j] && !IsSpace(m[j]) {
      CodeIsCanonical(m[j]);
    }
    assert UpperAll(m) == m;
    StripClean(m);
  }

  /** A motif that neither starts nor ends with whitespace expands exactly
      when every symbol is a code in upper or lower case. */
  lemma MotifAlphabet(motif: string)
    requires motif != [] && !IsSpace(motif[0]) && !IsSpace(motif[|motif| - 1])
    ensures MotifToRegex(motif).Ok? <==>
      forall i :: 0 <= i < |motif| ==> motif[i] in CodeLetters
  {
    var u := UpperAll(motif);
    UpperKeepsSpace(motif);
    StripClean(u);
    MotifUnsupported(motif);
    forall i | 0 <= i < |motif|
      ensures u[i] in IupacToRegex <==> motif[i] in CodeLetters
    {
      UpperIsCode(motif[i]);
      IupacToRegexEntries(u[i]);
    }
  }

  /** On a normalized sequence and a motif written in upper-case codes,
      find_motifs scans the sequence for the motif's base sets. */
  lemma FindMotifsOfCodes(s: string, m: string)
    requires IsDna(s)
    requires m != [] && forall j :: 0 <= j < |m| ==> m[j] in Codes
    ensures FindMotifs(s, m) == Ok(Scan(s, Pattern(m), 0))
  {
    NormalizeFixesDna(s);
    MotifOfCodes(m);
    ClassesOfRegexText(m);
  }

  /** motif_to_regex ignores case: motifs with the same upper-case form
      expand alike. */
  lemma MotifCaseInsensitive(a: string, b: string)
    requires UpperAll(a) == UpperAll(b)
    ensures MotifToRegex(a) == MotifToRegex(b)
  {
  }

  lemma RegexTextRy()
    ensures RegexText("RY") == "[AG][CT]"
  {
    assert "RY"[1..] == "Y" && "Y"[1..] == "";
  }

  /** motif_to_regex("RY") is "[AG][CT]". */
  lemma MotifToRegexExample()
    ensures MotifToRegex("RY") == Ok("[AG][CT]")
  {
    MotifOfCodes("RY");
    RegexTextRy();
  }

  lemma UpperRy()
    ensures UpperAll("ry") == UpperAll("RY")
  {
    assert UpperAll("ry") == "RY";
    assert UpperAll("RY") == "RY";
  }

  /** Lower case is accepted: "ry" expands as "RY" does. */
  lemma MotifLowerExample()
    ensures MotifToRegex("ry") == Ok("[AG][CT]")
  {
    UpperRy();
    MotifCaseInsensitive("ry", "RY");
    MotifToRegexExample();
  }

  /** An empty motif is refused. */
  lemma MotifEmptyExample()
    ensures MotifToRegex("") == Err(EmptyMotif)
  {
    MotifEmpty("");
  }

  /** So is an all-blank one. */
  lemma MotifBlankExample()
    ensures MotifToRegex(" \t") == Err(EmptyMotif)
  {
    var m := " \t";
    assert forall i :: 0 <= i < |m| ==> IsSpace(m[i]);
    MotifEmpty(m);
  }

  /** "Z" is already trimmed and upper-case. */
  lemma PrepareZ()
    ensures Strip(UpperAll("Z")) == "Z"
  {
    assert UpperAll("Z") == "Z";
    StripClean("Z");
  }

  /** "Z" is refused naming Z, with the message "Unsupported motif symbol: Z". */
  lemma MotifUnknownExample()
    ensures MotifToRegex("Z") == Err(UnsupportedSymbol('Z'))
    ensures Message(UnsupportedSymbol('Z')) == "Unsupported motif symbol: Z"
  {
    PrepareZ();
    assert FirstUnsupported("Z") == 0;
    assert PrepareMotif("Z") == Err(UnsupportedSymbol('Z'));
    MessageZ();
  }

  lemma MessageZ()
    ensures Message(UnsupportedSymbol('Z')) == "Unsupported motif symbol: Z"
  {
  }

  /** "A T" is already trimmed and upper-case. */
  lemma PrepareAT()
    ensures Strip(UpperAll("A T")) == "A T"
  {
    assert UpperAll("A T") == "A T";
    StripClean("A T");
  }

  /** Its first symbol that is no code is the space. */
  lemma FirstUnsupportedAT()
    ensures FirstUnsupported("A T") == 1
  {
    assert "A T"[1..] == " T";
    assert FirstUnsupported(" T") == 0;
  }

  /** "A T" is refused naming the interior space. */
  lemma MotifInnerSpaceExample()
    ensures MotifToRegex("A T") == Err(UnsupportedSymbol(' '))
  {
    PrepareAT();
    FirstUnsupportedAT();
  }

  lemma ScanOverlapExample()
    ensures Scan("AAAA", [{'A'}, {'A'}], 0) == [0, 1, 2]
  {
    var s := "AAAA";
    var pattern: seq<set<char>> := [{'A'}, {'A'}];
    assert MatchesAt(s, pattern, 0) && MatchesAt(s, pattern, 1) && MatchesAt(s, pattern, 2);
    assert Scan(s, pattern, 3) == [];
    assert Scan(s, pattern, 2) == [2];
    assert Scan(s, pattern, 1) == [1] + [2] == [1, 2];
    assert Scan(s, pattern, 0) == [0] + [1, 2] == [0, 1, 2];
  }

  /** find_motifs("AAAA", "AA") is [0, 1, 2]: overlapping matches are all
      reported. */
  lemma FindMotifsOverlapExample()
    ensures FindMotifs("AAAA", "AA") == Ok([0, 1, 2])
  {
    assert Pattern("AA") == [{'A'}, {'A'}];
    assert IsDna("AAAA");
    FindMotifsOfCodes("AAAA", "AA");
    ScanOverlapExample();
  }

  lemma ScanExample()
    ensures Scan("ATGCATGC", [{'A'}, {'T'}, {'G'}], 0) == [0, 4]
  {
    var s := "ATGCATGC";
    var pattern: seq<set<char>> := [{'A'}, {'T'}, {'G'}];
    assert Scan(s, pattern, 6) == [];
    assert s[5 + 0] !in pattern[0];
    assert Scan(s, pattern, 5) == [];
    assert MatchesAt(s, pattern, 4) && Scan(s, pattern, 4) == [4];
    assert !MatchesAt(s, pattern, 3) && Scan(s, pattern, 3) == [4];
    assert !MatchesAt(s, pattern, 2) && Scan(s, pattern, 2) == [4];
    assert !MatchesAt(s, pattern, 1) && Scan(s, pattern, 1) == [4];
    assert MatchesAt(s, pattern, 0) && Scan(s, pattern, 0) == [0] + [4] == [0, 4];
  }

  /** find_motifs("ATGCATGC", "ATG") is [0, 4]. */
  lemma FindMotifsExample()
    ensures FindMotifs("ATGCATGC", "ATG") == Ok([0, 4])
  {
    assert Pattern("ATG") == [{'A'}, {'T'}, {'G'}];
    assert IsDna("ATGCATGC");
    FindMotifsOfCodes("ATGCATGC", "ATG");
    ScanExample();
  }
}
