/** Single bits of a 64-bit word. */
module PackedBits {

  /** A bit position within a word. */
  function Bit(i: nat): (b: bv64)
    requires i < 64
    ensures b < 64
  {
    (i as bv6) as bv64
  }

  predicate Has(w: bv64, b: bv64)
    requires b < 64
  {
    (w >> b) & 1 == 1
  }

  function With(w: bv64, b: bv64): bv64
    requires b < 64
  {
    w | (1 << b)
  }

  lemma BitInjective(i: nat, j: nat)
    requires i < 64 && j < 64
    ensures Bit(i) == Bit(j) <==> i == j
  {
    BitValue(i);
    BitValue(j);
  }

  lemma BitValue(i: nat)
    requires i < 64
    ensures (i as bv6) as nat == i
  {
  }

  lemma SetHere(w: bv64, b: bv64)
    requires b < 64
    ensures Has(With(w, b), b)
  {
  }

  lemma SetElsewhere(w: bv64, a: bv64, b: bv64)
    requires a < 64 && b < 64 && a != b
    ensures Has(With(w, a), b) <==> Has(w, b)
  {
  }

  /** Setting one bit sets it and touches no other. */
  lemma WithHas(w: bv64, a: bv64, b: bv64)
    requires a < 64 && b < 64
    ensures Has(With(w, a), b) <==> a == b || Has(w, b)
  {
    hide Has;
    hide With;
    if a == b {
      SetHere(w, b);
    } else {
      SetElsewhere(w, a, b);
    }
  }

  lemma ZeroHas(b: bv64)
    requires b < 64
    ensures !Has(0, b)
  {
  }

  /** Testing a bit with a mask. */
  predicate Masked(w: bv64, b: bv64)
    requires b < 64
  {
    w & (1 << b) != 0
  }

  lemma HasMasked(w: bv64, b: bv64)
    requires b < 64
    ensures Has(w, b) <==> Masked(w, b)
  {
  }
}
