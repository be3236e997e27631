/** Sixteen 4-bit counters in one 64-bit word. */
module PackedWords {

  const NIBBLE_MAX: nat := 15

  /** Bit position of counter `k`, as a shift amount: four times `k`. */
  function Shift(k: nat): bv64
    requires k < 16
  {
    if k == 0 then 0 else if k == 1 then 4 else if k == 2 then 8 else if k == 3 then 12
    else if k == 4 then 16 else if k == 5 then 20 else if k == 6 then 24 else if k == 7 then 28
    else if k == 8 then 32 else if k == 9 then 36 else if k == 10 then 40 else if k == 11 then 44
    else if k == 12 then 48 else if k == 13 then 52 else if k == 14 then 56 else 60
  }

  /** The four bits from position `a` on. */
  function At(w: bv64, a: bv64): bv64
    requires a < 64
  {
    (w >> a) & 15
  }

  function Plus(w: bv64, a: bv64): bv64
    requires a < 64
  {
    w + (1 << a)
  }

  /** The value of counter `k`. */
  function Nibble(w: bv64, k: nat): nat
    requires k < 16
  {
    At(w, Shift(k)) as nat
  }

  /** The word after one is added at counter `k`. */
  function Raised(w: bv64, k: nat): bv64
    requires k < 16
  {
    Plus(w, Shift(k))
  }

  function HalvedWord(w: bv64): bv64
  {
    (w >> 1) & 0x7777_7777_7777_7777
  }

  // ---- Facts about bits ----

  predicate Aligned(a: bv64)
  {
    a < 64 && a & 3 == 0
  }

  lemma PlusHere(w: bv64, a: bv64)
    requires Aligned(a)
    ensures At(w, a) != 15 ==> At(Plus(w, a), a) == At(w, a) + 1
    ensures At(w, a) == 15 ==> At(Plus(w, a), a) == 0
  {
  }

  lemma PlusElsewhere(w: bv64, a: bv64, b: bv64)
    requires Aligned(a) && Aligned(b) && a != b && At(w, a) != 15
    ensures At(Plus(w, a), b) == At(w, b)
  {
  }

  lemma HalveBits(w: bv64, a: bv64)
    requires Aligned(a)
    ensures At(HalvedWord(w), a) == At(w, a) >> 1
  {
  }

  lemma AtRange(w: bv64, a: bv64)
    requires a < 64
    ensures At(w, a) <= 15
  {
  }

  lemma SmallValue(x: bv64)
    requires x <= 15
    ensures x as nat <= NIBBLE_MAX && (x as nat == NIBBLE_MAX <==> x == 15)
    ensures x < 15 ==> (x + 1) as nat == x as nat + 1
    ensures (x >> 1) as nat == x as nat / 2
  {
  }

  lemma ShiftIsFour(k: nat)
    requires k < 16
    ensures Shift(k) as nat == 4 * k
  {
  }

  lemma ShiftAligned(k: nat)
    requires k < 16
    ensures Aligned(Shift(k))
  {
  }

  lemma ShiftInjective(j: nat, k: nat)
    requires j < 16 && k < 16
    ensures Shift(j) == Shift(k) <==> j == k
  {
  }

  // ---- Counters ----

  /** Adding one at an unsaturated counter's position counts there and bleeds nowhere; at a
      saturated one it would wrap to zero. */
  lemma RaiseNibble(w: bv64, k: nat, j: nat)
    requires k < 16 && j < 16
    ensures Nibble(w, k) < NIBBLE_MAX ==> Nibble(Raised(w, k), j) == Nibble(w, j) + if j == k then 1 else 0
    ensures Nibble(w, k) == NIBBLE_MAX ==> Nibble(Raised(w, k), k) == 0
  {
    ShiftAligned(k);
    ShiftAligned(j);
    ShiftInjective(j, k);
    hide Shift;
    hide At;
    hide Plus;
    hide Aligned;
    AtRange(w, Shift(k));
    SmallValue(At(w, Shift(k)));
    PlusHere(w, Shift(k));
    if j != k && Nibble(w, k) < NIBBLE_MAX {
      PlusElsewhere(w, Shift(k), Shift(j));
    }
  }

  /** One shift and mask halves all sixteen counters at once. */
  lemma HalveNibble(w: bv64, k: nat)
    requires k < 16
    ensures Nibble(HalvedWord(w), k) == Nibble(w, k) / 2
  {
    ShiftAligned(k);
    hide Shift;
    hide At;
    hide HalvedWord;
    HalveBits(w, Shift(k));
    AtRange(w, Shift(k));
    SmallValue(At(w, Shift(k)));
  }

  lemma ZeroNibble(k: nat)
    requires k < 16
    ensures Nibble(0, k) == 0
  {
    ZeroBits(Shift(k));
  }

  lemma ZeroBits(a: bv64)
    requires a < 64
    ensures At(0, a) == 0
  {
  }
}
