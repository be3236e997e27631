/** The packed sketch: rows of 64-bit words updated in place, proved equal to plain counters. */
module Sketch {
  import opened Ring
  import opened PackedWords
  import opened CountMin

  const MIN_WIDTH: nat := 16

  /** The next power of two at or above `width`, at least 16. */
  method WidthFor(width: int) returns (w: nat)
    ensures IsPow2(w) && w % 16 == 0 && w >= MIN_WIDTH && w >= width && (w == MIN_WIDTH || w / 2 < width)
  {
    w := MIN_WIDTH;
    while w < width
      invariant w % 16 == 0 && IsPow2(w) && w >= MIN_WIDTH && (w == MIN_WIDTH || w / 2 < width)
      decreases width - w
    {
      w := 2 * w;
    }
  }

  class PackedSketch {
    const g: Grid
    const words: array2<bv64>
    ghost var rows: Rows

    ghost predicate Packs(r: nat, i: nat)
      requires words.Length0 == DEPTH && words.Length1 * 16 == g.width && Shaped(rows, g)
      requires r < DEPTH && i < g.width
      reads this, words
    {
      rows[r][i] == Nibble(words[r, i / 16], i % 16)
    }

    ghost predicate Valid()
      reads this, words
    {
      && words.Length0 == DEPTH && words.Length1 * 16 == g.width && Shaped(rows, g)
      && (forall r, i :: 0 <= r < DEPTH && 0 <= i < g.width ==> Packs(r, i))
    }

    /** All counters zero, in the next power of two at or above `width` and at least 16. */
    constructor (width: int, mix: (Fp, nat) -> nat)
      ensures Valid() && fresh(words) && g.mix == mix && rows == Blank(g)
      ensures IsPow2(g.width) && g.width >= MIN_WIDTH && g.width >= width
        && (g.width == MIN_WIDTH || g.width / 2 < width)
    {
      var w := WidthFor(width);
      g := Grid(w, mix);
      words := new bv64[DEPTH, w / 16]((_, _) => 0);
      rows := Blank(Grid(w, mix));
      new;
      hide *;
      BlankPacks();
    }

    lemma BlankPacks()
      requires words.Length0 == DEPTH && words.Length1 * 16 == g.width && g.width > 0 && rows == Blank(g)
      requires forall r, j :: 0 <= r < DEPTH && 0 <= j < words.Length1 ==> words[r, j] == 0
      ensures Valid()
    {
      hide Blank;
      hide Nibble;
      forall r, i | 0 <= r < DEPTH && 0 <= i < g.width
        ensures Packs(r, i)
      {
        ZeroNibble(i % 16);
      }
    }

    method Read(r: nat, i: nat) returns (v: nat)
      requires Valid() && r < DEPTH && i < g.width
      ensures v == rows[r][i] <= NIBBLE_MAX
    {
      assert Packs(r, i);
      v := Nibble(words[r, i / 16], i % 16);
    }

    /** Add one at an unsaturated counter; its fifteen neighbours in the word stay put. */
    method Raise(r: nat, i: nat)
      requires Valid() && r < DEPTH && i < g.width && rows[r][i] < NIBBLE_MAX
      modifies this`rows, words
      ensures Valid() && rows == old(rows)[r := old(rows)[r][i := old(rows)[r][i] + 1]]
    {
      assert Packs(r, i);
      ghost var w := words[r, i / 16];
      ghost var before := rows;
      words[r, i / 16] := Raised(words[r, i / 16], i % 16);
      rows := rows[r := rows[r][i := rows[r][i] + 1]];
      forall q, j | 0 <= q < DEPTH && 0 <= j < g.width ensures Packs(q, j) {
        assert old(Packs(q, j));
        if q == r && j / 16 == i / 16 {
          RaiseNibble(w, i % 16, j % 16);
          SameWord(i, j);
        }
      }
    }

    /** Halve every counter, sixteen at a time. */
    method Halve()
      requires Valid()
      modifies this`rows, words
      ensures Valid() && rows == CountMin.Halve(old(rows))
    {
      var r := 0;
      while r < DEPTH
        invariant 0 <= r <= DEPTH && rows == old(rows)
        invariant forall q, j :: 0 <= q < DEPTH && 0 <= j < words.Length1 ==>
          words[q, j] == if q < r then HalvedWord(old(words[q, j])) else old(words[q, j])
      {
        var j := 0;
        while j < words.Length1
          invariant 0 <= j <= words.Length1 && rows == old(rows)
          invariant forall q, k :: 0 <= q < DEPTH && 0 <= k < words.Length1 ==>
            words[q, k] == if q < r || (q == r && k < j) then HalvedWord(old(words[q, k])) else old(words[q, k])
        {
          words[r, j] := HalvedWord(words[r, j]);
          j := j + 1;
        }
        r := r + 1;
      }
      HalveShaped(rows, g);
      rows := CountMin.Halve(rows);
      forall q, j | 0 <= q < DEPTH && 0 <= j < g.width ensures Packs(q, j) {
        assert old(Packs(q, j));
        HalveNibble(old(words[q, j / 16]), j % 16);
      }
    }

    /** The least of the four counters of `fp`. */
    method Query(fp: Fp) returns (lo: nat)
      requires Valid()
      ensures lo == Estimate(rows, g, fp)
    {
      hide Col;
      hide Estimate;
      lo := NIBBLE_MAX;
      var r := 0;
      while r < DEPTH
        invariant 0 <= r <= DEPTH && lo == LeastOf(rows, g, fp, r)
      {
        var v := Read(r, Col(g, fp, r));
        if v < lo {
          lo := v;
        }
        r := r + 1;
      }
      LeastIsEstimate(rows, g, fp);
    }

    /** One conservative-update increment. */
    method Increment(fp: Fp)
      requires Valid()
      modifies this`rows, words
      ensures Valid() && rows == CountMin.Increment(old(rows), g, fp)
    {
      var lo := Query(fp);
      if lo >= NIBBLE_MAX {
        return;
      }
      var r := 0;
      while r < DEPTH
        invariant 0 <= r <= DEPTH && Valid()
        invariant forall q :: 0 <= q < r ==> rows[q] == RaiseRow(old(rows), g, fp, q)
        invariant forall q :: r <= q < DEPTH ==> rows[q] == old(rows)[q]
      {
        var v := Read(r, Col(g, fp, r));
        if v == lo {
          Raise(r, Col(g, fp, r));
        }
        r := r + 1;
      }
      assert rows == CountMin.Increment(old(rows), g, fp);
    }
  }

  /** The least of the first `n` counters, 15 for none. */
  function LeastOf(c: Rows, g: Grid, fp: Fp, n: nat): nat
    requires Shaped(c, g) && n <= DEPTH
  {
    if n == 0 then NIBBLE_MAX else Min(LeastOf(c, g, fp, n - 1), Val(c, g, fp, n - 1))
  }

  lemma LeastIsEstimate(c: Rows, g: Grid, fp: Fp)
    requires Shaped(c, g)
    ensures LeastOf(c, g, fp, DEPTH) == Estimate(c, g, fp)
  {
    hide Val;
    assert LeastOf(c, g, fp, 1) == Min(NIBBLE_MAX, Val(c, g, fp, 0));
    assert LeastOf(c, g, fp, 2) == Min(LeastOf(c, g, fp, 1), Val(c, g, fp, 1));
    assert LeastOf(c, g, fp, 3) == Min(LeastOf(c, g, fp, 2), Val(c, g, fp, 2));
  }

  lemma SameWord(i: nat, j: nat)
    requires i / 16 == j / 16
    ensures i % 16 == j % 16 <==> i == j
  {
  }
}
