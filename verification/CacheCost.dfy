/** Entries of the cache and the byte cost the accounting gives them. */
module CacheCost {

  import opened Finite
  import opened Options

  newtype byte = b: int | 0 <= b < 256

  type Key = seq<byte>

  /** A stored value and, if it has a time to live, the instant it expires. */
  datatype Entry = Entry(value: seq<byte>, expiresAt: Option<int>)

  const ENTRY_OVERHEAD: nat := 64

  function Cost(k: Key, e: Entry): (c: nat)
    ensures c >= ENTRY_OVERHEAD
  {
    |k| + |e.value| + ENTRY_OVERHEAD
  }

  ghost function PickKey(m: map<Key, Entry>): (k: Key)
    requires m.Keys != {}
    ensures k in m
  {
    var k :| k in m.Keys; k
  }

  /** The summed cost of everything stored. */
  ghost function TotalCost(m: map<Key, Entry>): nat
    decreases |m|
  {
    if m.Keys == {} then 0
    else
      var k := PickKey(m);
      Fewer(m, k);
      Cost(k, m[k]) + TotalCost(m - {k})
  }

  lemma {:induction false} CostWithout(m: map<Key, Entry>, k: Key)
    requires k in m
    ensures TotalCost(m) == Cost(k, m[k]) + TotalCost(m - {k})
    decreases |m|
  {
    var p := PickKey(m);
    if p != k {
      Fewer(m, p);
      Fewer(m, k);
      CostWithout(m - {p}, k);
      CostWithout(m - {k}, p);
      assert m - {p} - {k} == m - {k} - {p};
    }
  }

  /** What was charged for `k` before. */
  function OldCost(m: map<Key, Entry>, k: Key): nat
  {
    if k in m then Cost(k, m[k]) else 0
  }

  /** Overwriting changes the total by exactly the difference of the two costs. */
  lemma CostOfPut(m: map<Key, Entry>, k: Key, e: Entry)
    ensures TotalCost(m[k := e]) == TotalCost(m) - OldCost(m, k) + Cost(k, e)
  {
    CostWithout(m[k := e], k);
    assert m[k := e] - {k} == m - {k};
    if k in m {
      CostWithout(m, k);
    } else {
      assert m - {k} == m;
    }
  }

  lemma CostOfRemove(m: map<Key, Entry>, k: Key)
    ensures TotalCost(m - {k}) == TotalCost(m) - OldCost(m, k)
  {
    if k in m {
      CostWithout(m, k);
    } else {
      assert m - {k} == m;
    }
  }

  lemma CostAtLeast(m: map<Key, Entry>, k: Key)
    requires k in m
    ensures TotalCost(m) >= Cost(k, m[k])
    ensures m.Keys == {k} ==> TotalCost(m) == Cost(k, m[k])
  {
    CostWithout(m, k);
    if m.Keys == {k} {
      assert (m - {k}).Keys == {};
    }
  }

  /** Fewer bindings cost no more. */
  lemma {:induction false} CostOfSubmap(n: map<Key, Entry>, m: map<Key, Entry>)
    requires forall k :: k in n ==> k in m && n[k] == m[k]
    ensures TotalCost(n) <= TotalCost(m)
    decreases |n|
  {
    if n.Keys != {} {
      var k :| k in n.Keys;
      CostWithout(n, k);
      CostWithout(m, k);
      Fewer(n, k);
      CostOfSubmap(n - {k}, m - {k});
    }
  }
}
