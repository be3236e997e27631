/** Lengths on the wire: canonical decimals, the strict parser and Go's lenient one. */
module RespNumbers {

  import opened Options

  type Byte = b: nat | b < 256
  type Bytes = seq<Byte>

  const CR: Byte := 13
  const LF: Byte := 10
  const ZERO: Byte := 48
  const MAX_INT: nat := 0x7FFF_FFFF_FFFF_FFFF

  predicate IsDigit(c: Byte)
  {
    ZERO <= c <= ZERO + 9
  }

  predicate AllDigits(b: Bytes)
  {
    forall i :: 0 <= i < |b| ==> IsDigit(b[i])
  }

  /** The value of a string of digits. */
  function Value(b: Bytes): nat
    requires AllDigits(b)
  {
    if b == [] then 0 else Value(b[..|b| - 1]) * 10 + (b[|b| - 1] - ZERO)
  }

  /** How a non-negative number is written: no sign, no leading zero. */
  function Decimal(n: nat): (b: Bytes)
    ensures |b| > 0 && AllDigits(b)
  {
    if n < 10 then [ZERO + n] else Decimal(n / 10) + [ZERO + n % 10]
  }

  lemma {:induction false} DecimalValue(n: nat)
    ensures Value(Decimal(n)) == n
    ensures Decimal(n)[0] == ZERO <==> n == 0
  {
    var b := Decimal(n);
    if n >= 10 {
      DecimalValue(n / 10);
      assert b[..|b| - 1] == Decimal(n / 10);
      assert b[0] == Decimal(n / 10)[0];
    } else {
      assert b[..0] == [];
    }
  }

  /** A lone zero, or digits that do not start with one. */
  predicate Canonical(b: Bytes)
  {
    |b| > 0 && AllDigits(b) && (b[0] == ZERO ==> |b| == 1)
  }

  lemma {:induction false} CanonicalIsDecimal(b: Bytes)
    requires Canonical(b)
    ensures b == Decimal(Value(b))
    ensures b[0] != ZERO ==> Value(b) > 0
  {
    var n := |b| - 1;
    if n == 0 {
      assert b[..0] == [];
      assert b == [b[0]];
    } else {
      CanonicalIsDecimal(b[..n]);
      var v := Value(b[..n]);
      assert Value(b) == v * 10 + (b[n] - ZERO) && v > 0;
      assert Value(b) / 10 == v && Value(b) % 10 == b[n] - ZERO;
      assert b == b[..n] + [b[n]];
    }
  }

  lemma {:induction false} DecimalShort(n: nat, k: nat, bound: nat)
    requires k > 0 && n < bound && IsPow10(bound, k)
    ensures |Decimal(n)| <= k
    decreases k
  {
    if n >= 10 {
      DecimalShort(n / 10, k - 1, bound / 10);
    }
  }

  predicate IsPow10(b: nat, k: nat)
  {
    if k == 0 then b == 1 else b % 10 == 0 && IsPow10(b / 10, k - 1)
  }

  /** Anything that fits an int takes at most nineteen digits. */
  lemma DecimalFits(n: nat)
    requires n <= MAX_INT
    ensures |Decimal(n)| <= 19
  {
    assert IsPow10(1_00000_00000_00000_0000, 19) by {
      assert IsPow10(1_00000_00000_00000, 15) by {
        assert IsPow10(1_00000_00000_0, 11) by {
          assert IsPow10(10_000_000, 7) by { assert IsPow10(1000, 3); }
        }
      }
    }
    DecimalShort(n, 19, 1_00000_00000_00000_0000);
  }

  // ---- The strict parser ----

  /** A canonical decimal that fits an int. */
  function ParsedInt(b: Bytes): Option<nat>
  {
    if Canonical(b) && Value(b) <= MAX_INT then Some(Value(b)) else None
  }

  /** The strict parser accepts exactly the canonical decimals of 0..MAX_INT. */
  lemma ParsesExactlyDecimals(b: Bytes, n: nat)
    ensures ParsedInt(b) == Some(n) <==> n <= MAX_INT && b == Decimal(n)
  {
    DecimalValue(n);
    if Canonical(b) {
      CanonicalIsDecimal(b);
    }
  }

  lemma {:induction false} ValueGrows(b: Bytes, i: nat)
    requires AllDigits(b) && i <= |b|
    ensures Value(b[..i]) <= Value(b)
  {
    if i < |b| {
      ValueGrows(b[..|b| - 1], i);
      assert b[..|b| - 1][..i] == b[..i];
    } else {
      assert b[..i] == b;
    }
  }

  /** Accumulate digit by digit, refusing signs, leading zeros and anything past the largest int. */
  method ParseInt(b: Bytes) returns (r: Option<nat>)
    ensures r == ParsedInt(b)
  {
    if |b| == 0 {
      return None;
    }
    if b[0] < ZERO + 1 || b[0] > ZERO + 9 {
      if |b| != 1 || b[0] != ZERO {
        return None;
      }
    }
    var n: nat := 0;
    var i := 0;
    while i < |b|
      invariant 0 <= i <= |b| && AllDigits(b[..i]) && n == Value(b[..i]) <= MAX_INT
    {
      if !IsDigit(b[i]) {
        return None;
      }
      var d := b[i] - ZERO;
      assert b[..i + 1][..i] == b[..i];
      assert AllDigits(b[..i + 1]) && Value(b[..i + 1]) == n * 10 + d;
      if n > (MAX_INT - d) / 10 {
        if AllDigits(b) {
          ValueGrows(b, i + 1);
        }
        return None;
      }
      n := n * 10 + d;
      i := i + 1;
    }
    assert b[..i] == b;
    r := Some(n);
  }

  // ---- Go's strconv.Atoi ----

  /** An optional sign, then digits, within the range of an int; leading zeros allowed. */
  function Atoi(b: Bytes): Option<int>
  {
    var signed := |b| > 0 && (b[0] == 43 || b[0] == 45);
    var digits := if signed then b[1..] else b;
    if digits == [] || !AllDigits(digits) then None
    else
      var v := if signed && b[0] == 45 then 0 - Value(digits) else Value(digits);
      if -(MAX_INT + 1) <= v <= MAX_INT then Some(v) else None
  }

  /** Atoi accepts whatever the strict parser accepts, with the same value. */
  lemma AtoiCanonical(b: Bytes)
    requires ParsedInt(b).Some?
    ensures Atoi(b) == Some(ParsedInt(b).value)
  {
  }
}
