/** Cyclic slot arithmetic for a power-of-two table.  Distances are written with a
    case split rather than a remainder, so that only `Home` divides. */
module Ring {

  /** A 64-bit hash value. */
  type Hash = h: nat | h < 0x1_0000_0000_0000_0000

  predicate IsPow2(n: nat)
  {
    n == 1 || (n > 1 && n % 2 == 0 && IsPow2(n / 2))
  }

  /** The home slot: the low bits of the hash, `hash & (cap - 1)`. */
  function Home(h: nat, cap: nat): (r: nat)
    requires cap > 0
    ensures r < cap
  {
    h % cap
  }

  lemma HomeSmall(h: nat, cap: nat)
    requires h < cap
    ensures Home(h, cap) == h
  {
  }

  /** `(i + 1) & (cap - 1)` */
  function Next(i: nat, cap: nat): (r: nat)
    requires i < cap
    ensures r < cap
    ensures Dist(i, r, cap) == if cap == 1 then 0 else 1
  {
    if i + 1 == cap then 0 else i + 1
  }

  /** The slot `k` places before `i`. */
  function Back(i: nat, k: nat, cap: nat): (r: nat)
    requires i < cap && k <= cap
    ensures r < cap
    ensures k < cap ==> Dist(r, i, cap) == k
  {
    if k <= i then i - k else i + cap - k
  }

  /** Number of forward steps from `a` to `b` around the ring. */
  function Dist(a: nat, b: nat, cap: nat): (d: nat)
    requires a < cap && b < cap
    ensures d < cap
    ensures d == 0 <==> a == b
  {
    if a <= b then b - a else b + cap - a
  }

  /** The slots reached from `a` in fewer than `n` forward steps. */
  ghost function Arc(a: nat, n: nat, cap: nat): set<nat>
    requires a < cap
  {
    set i | 0 <= i < cap && Dist(a, i, cap) < n
  }

  lemma {:induction false} ArcSize(a: nat, n: nat, cap: nat)
    requires a < cap && n <= cap
    ensures |Arc(a, n, cap)| == n
  {
    if n == 0 {
      assert Arc(a, n, cap) == {};
    } else {
      ArcSize(a, n - 1, cap);
      var last := if a + n - 1 < cap then a + n - 1 else a + n - 1 - cap;
      assert Arc(a, n, cap) == Arc(a, n - 1, cap) + {last};
    }
  }

  lemma Pow2Twice(a: nat)
    requires IsPow2(a)
    ensures IsPow2(2 * a)
  {
    assert 2 * a / 2 == a;
  }

  lemma Pow2Half(a: nat)
    requires IsPow2(a) && a > 8
    ensures IsPow2(a / 2) && a / 2 >= 8 && a % 4 == 0
  {
    var b := a / 2;
    var c := b / 2;
    assert a == 2 * b && b == 2 * c;
    assert IsPow2(c) && c > 2;
    assert c % 2 == 0;
  }

  lemma {:induction false} Pow2Double(a: nat, b: nat)
    requires IsPow2(a) && IsPow2(b) && a < b
    ensures 2 * a <= b
    decreases b
  {
    if a > 1 {
      Pow2Double(a / 2, b / 2);
    }
  }

  /** Halving the modulus: reducing modulo `2c` and then modulo `c` is reducing modulo `c`. */
  lemma HomeDouble(h: nat, c: nat)
    requires c > 0
    ensures Home(h, 2 * c) == Home(h, c) || Home(h, 2 * c) == Home(h, c) + c
  {
    var q, r := h / c, h % c;
    assert h == q * c + r;
    if q % 2 == 0 {
      assert h == (q / 2) * (2 * c) + r;
      DivModUnique(h, 2 * c, q / 2, r);
    } else {
      assert q == 2 * (q / 2) + 1;
      assert h == (q / 2) * (2 * c) + (r + c);
      DivModUnique(h, 2 * c, q / 2, r + c);
    }
  }

  lemma MulGap(a: nat, b: nat, d: nat)
    requires a > b
    ensures a * d >= b * d + d
  {
    assert a * d == b * d + (a - b) * d;
    assert (a - b) * d >= d by {
      assert (a - b) * d == d + (a - b - 1) * d;
    }
  }

  lemma DivModUnique(x: nat, d: nat, q: nat, r: nat)
    requires d > 0 && r < d && x == q * d + r
    ensures x / d == q && x % d == r
  {
    var q', r' := x / d, x % d;
    assert x == q' * d + r' && 0 <= r' < d;
    if q > q' {
      MulGap(q, q', d);
    } else if q < q' {
      MulGap(q', q, d);
    }
  }
}
