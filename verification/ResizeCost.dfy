/** The load factor and the cost of resizing, as a state machine over (capacity, count):
    what growth at three quarters and shrinking at one quarter guarantee over every run in
    which the valve stays shut. */
module ResizeCost {
  import opened Options
  import opened Ring
  import opened RobinHoodTable

  /** Capacity, live entries, and entries reinserted by all resizes so far. */
  datatype Load = Load(cap: nat, count: nat, moved: nat)

  datatype Change = Added | Replaced | Removed

  predicate CanChange(l: Load, c: Change)
  {
    c.Removed? ==> l.count > 0
  }

  function After(l: Load, c: Change): Load
    requires CanChange(l, c)
  {
    var n := match c case Added => l.count + 1 case Replaced => l.count case Removed => l.count - 1;
    var cap := if c.Removed? then DeleteCap(l.cap, n) else InsertCap(l.cap, l.count);
    var carried := if c.Removed? then n else l.count;
    Load(cap, n, l.moved + if cap != l.cap then carried else 0)
  }

  /** At most three quarters full, and at least one quarter unless at the minimum capacity. */
  predicate Balanced(l: Load)
  {
    && IsPow2(l.cap) && l.cap >= MIN_CAP
    && 4 * l.count <= 3 * l.cap
    && (l.cap == MIN_CAP || 4 * l.count >= l.cap)
  }

  /** Work saved up for the next resize: three per entry above half, two per entry missing
      below three eighths (counted in eighths to stay integral). */
  function Potential(l: Load): nat
  {
    (if 2 * l.count > l.cap then 3 * (8 * l.count - 4 * l.cap) else 0)
    + (if 8 * l.count < 3 * l.cap then 2 * (3 * l.cap - 8 * l.count) else 0)
  }

  lemma Halved(n: nat) returns (h: nat)
    requires IsPow2(n) && n > 1
    ensures n == 2 * h && IsPow2(h)
  {
    h := n / 2;
  }

  lemma Pow2Eighths(n: nat) returns (c: nat, d: nat)
    requires IsPow2(n) && n >= MIN_CAP
    ensures n == 8 * c && (c == 1 || c == 2 * d)
  {
    hide IsPow2;
    var a := Halved(n);
    var b := Halved(a);
    c := Halved(b);
    d := 0;
    if c > 1 {
      d := Halved(c);
    }
  }

  /** Exactly when the capacity changes: it doubles before an entry goes into a table three quarters full,
      a new key or not, and halves on a removal that leaves less than a quarter, but never under 8. */
  lemma ResizesExactly(l: Load, c: Change)
    requires IsPow2(l.cap) && l.cap >= 8 && CanChange(l, c)
    ensures var cap := After(l, c).cap;
      if c.Removed? then cap == if l.cap > 8 && 4 * (l.count - 1) < l.cap then l.cap / 2 else l.cap
      else cap == if 4 * l.count >= 3 * l.cap then 2 * l.cap else l.cap
  {
    var e, s := Pow2Eighths(l.cap);
  }

  /** One change keeps the balance and pays for its own resize: three at most, in eighths. */
  lemma ChangeIsPaid(l: Load, c: Change)
    requires Balanced(l) && CanChange(l, c)
    ensures Balanced(After(l, c))
    ensures 8 * After(l, c).moved + Potential(After(l, c)) <= 8 * l.moved + Potential(l) + 24
  {
    var e, s := Pow2Eighths(l.cap);
    var cap := l.cap;
    match c {
      case Added =>
        Pow2Twice(cap);
      case Replaced =>
        Pow2Twice(cap);
      case Removed =>
        if cap > MIN_CAP {
          Pow2Half(cap);
        }
    }
  }

  /** The load after a whole run of changes; `None` if a removal had nothing to remove. */
  function Run(l: Load, cs: seq<Change>): Option<Load>
    decreases |cs|
  {
    if cs == [] then Some(l)
    else if !CanChange(l, cs[0]) then None
    else Run(After(l, cs[0]), cs[1..])
  }

  lemma {:induction false} RunIsPaid(l: Load, cs: seq<Change>)
    requires Balanced(l) && Run(l, cs).Some?
    ensures Balanced(Run(l, cs).value)
    ensures 8 * Run(l, cs).value.moved <= 8 * l.moved + Potential(l) + 24 * |cs|
    decreases |cs|
  {
    if cs != [] {
      ChangeIsPaid(l, cs[0]);
      RunIsPaid(After(l, cs[0]), cs[1..]);
    }
  }

  /** From an empty table of the minimum capacity, every run stays balanced and n changes
      move at most 3n + 6 entries in all resizes together. */
  lemma ResizesAmortized(cs: seq<Change>)
    requires Run(Load(MIN_CAP, 0, 0), cs).Some?
    ensures Balanced(Run(Load(MIN_CAP, 0, 0), cs).value)
    ensures Run(Load(MIN_CAP, 0, 0), cs).value.moved <= 3 * |cs| + 6
  {
    RunIsPaid(Load(MIN_CAP, 0, 0), cs);
  }
}
