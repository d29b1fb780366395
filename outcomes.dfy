/** Failure values of the sequence engine. Every failure of the engine is a
    validation error raised as ValueError with a fixed message text; here it is
    a value of Error, and Message gives the exact text the caller sees. */
module Outcomes {

  /** The four validation failures. */
  datatype Error =
    | InvalidBases(bases: string)        // distinct offending characters, ascending
    | InvalidFrame
    | EmptyMotif
    | UnsupportedSymbol(symbol: char)

  /** Either the value an operation computes or the error it raises. */
  datatype Result<T> = Ok(value: T) | Err(error: Error)

  /** Joins one-character strings with ", ", as `", ".join(cs)` does. */
  function JoinChars(cs: string): (r: string)
    ensures |cs| == 0 ==> r == ""
    ensures |cs| > 0 ==> |r| == 3 * |cs| - 2 && r[0] == cs[0] && r[|r| - 1] == cs[|cs| - 1]
  {
    if |cs| == 0 then ""
    else if |cs| == 1 then [cs[0]]
    else [cs[0]] + ", " + JoinChars(cs[1..])
  }

  /** In the joined text the characters sit at every third position, with
      the separator ", " between them. */
  lemma {:induction false} JoinCharsAt(cs: string)
    ensures forall i :: 0 <= i < |JoinChars(cs)| ==>
      JoinChars(cs)[i] == (if i % 3 == 0 then cs[i / 3] else if i % 3 == 1 then ',' else ' ')
  {
    if |cs| > 1 {
      JoinCharsAt(cs[1..]);
      var rest := JoinChars(cs[1..]);
      var r := [cs[0]] + ", " + rest;
      assert JoinChars(cs) == r;
      forall i | 0 <= i < |r|
        ensures r[i] == (if i % 3 == 0 then cs[i / 3] else if i % 3 == 1 then ',' else ' ')
      {
        if i >= 3 {
          assert r[i] == rest[i - 3];
          assert (i - 3) % 3 == i % 3 && (i - 3) / 3 == i / 3 - 1;
          assert cs[1..][i / 3 - 1] == cs[i / 3];
        }
      }
    }
  }

  /** The text of the ValueError raised for each failure: an unsupported
      symbol message ends with that symbol, an invalid-bases message with the
      last offender it names. */
  function Message(e: Error): (r: string)
    ensures |r| > 0
    ensures e.UnsupportedSymbol? ==> r[|r| - 1] == e.symbol
    ensures e.InvalidBases? && e.bases != [] ==> r[|r| - 1] == e.bases[|e.bases| - 1]
  {
    match e
    case InvalidBases(bases) => "DNA contains invalid bases: " + JoinChars(bases)
    case InvalidFrame => "Frame must be 1, 2, or 3."
    case EmptyMotif => "Motif cannot be empty."
    case UnsupportedSymbol(c) => "Unsupported motif symbol: " + [c]
  }

  /** An invalid-bases message starts with its fixed prefix and names each
      offender at its own slot, the slots separated by ", ". */
  lemma InvalidBasesMessage(bases: string, k: nat)
    requires k < |bases|
    ensures var m := Message(InvalidBases(bases));
      && m[..28] == "DNA contains invalid bases: "
      && m[28 + 3 * k] == bases[k]
      && |m| == 28 + 3 * |bases| - 2
  {
    var j := JoinChars(bases);
    JoinCharsAt(bases);
    assert j[3 * k] == bases[k];
    var m := Message(InvalidBases(bases));
    assert m == "DNA contains invalid bases: " + j;
  }

  /** Joining is injective: the joined text determines the characters. */
  lemma {:induction false} JoinCharsInjective(a: string, b: string)
    requires JoinChars(a) == JoinChars(b)
    ensures a == b
  {
    assert |a| == |b|;
    if |a| > 1 {
      var j := JoinChars(a);
      assert j[3..] == JoinChars(a[1..]) && j[3..] == JoinChars(b[1..]);
      JoinCharsInjective(a[1..], b[1..]);
      assert a == [a[0]] + a[1..] && b == [b[0]] + b[1..];
    }
  }

  /** Distinct failures raise distinct texts, so the message names the
      failure and its offenders exactly. */
  lemma MessageInjective(e1: Error, e2: Error)
    requires Message(e1) == Message(e2)
    ensures e1 == e2
  {
    var m := Message(e1);
    if e1.InvalidBases? && e2.InvalidBases? {
      var prefix := "DNA contains invalid bases: ";
      assert m == prefix + JoinChars(e1.bases) == prefix + JoinChars(e2.bases);
      assert m[|prefix|..] == JoinChars(e1.bases) && m[|prefix|..] == JoinChars(e2.bases);
      JoinCharsInjective(e1.bases, e2.bases);
    } else if e1.UnsupportedSymbol? && e2.UnsupportedSymbol? {
      assert m[|m| - 1] == e1.symbol && m[|m| - 1] == e2.symbol;
    } else {
      assert m[0] == Message(e2)[0] && m[1] == Message(e2)[1];
    }
  }
}
