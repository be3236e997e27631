/** Whole runs of a table against a finite map. */
module RobinHoodRuns {
  import opened Finite
  import opened Options
  import opened Ring
  import opened RobinHoodLayout
  import opened RobinHoodHistory
  import opened RobinHoodRestore
  import opened RobinHoodTermination
  import opened RobinHoodTable
  import opened ResizeCost

  datatype Op<K, V> = Put(key: K, val: V) | Find(key: K) | Remove(key: K)

  /** The reference: a finite map. */
  function Apply<K(==), V>(m: map<K, V>, op: Op<K, V>): map<K, V>
  {
    match op
    case Put(k, v) => m[k := v]
    case Find(_) => m
    case Remove(k) => m - {k}
  }

  function Reply<K(==), V>(m: map<K, V>, op: Op<K, V>): Option<V>
  {
    if op.Put? || op.key !in m then None else Some(m[op.key])
  }

  function Final<K(==), V>(ops: seq<Op<K, V>>): map<K, V>
  {
    if ops == [] then map[] else Apply(Final(ops[..|ops| - 1]), ops[|ops| - 1])
  }

  function Replies<K(==), V>(ops: seq<Op<K, V>>): seq<Option<V>>
  {
    if ops == [] then []
    else Replies(ops[..|ops| - 1]) + [Reply(Final(ops[..|ops| - 1]), ops[|ops| - 1])]
  }

  lemma {:induction false} FinalBounds<K, V>(ops: seq<Op<K, V>>)
    ensures |Final(ops)| <= |ops|
  {
    if ops != [] {
      var init, op := ops[..|ops| - 1], ops[|ops| - 1];
      FinalBounds(init);
      var m := Final(init);
      assert Final(ops).Keys <= m.Keys + {op.key};
      SubsetSize(Final(ops).Keys, m.Keys + {op.key});
      if op.key in m {
        assert m.Keys + {op.key} == m.Keys;
      }
      if !op.Put? {
        SubsetSize(Final(ops).Keys, m.Keys);
      }
    }
  }

  /** Operation `j` put `k`, and nothing before operation `n` has put or removed it since. */
  ghost predicate LastPut<K, V>(ops: seq<Op<K, V>>, n: nat, k: K, j: nat)
    requires n <= |ops|
  {
    j < n && ops[j].Put? && ops[j].key == k && forall p :: j < p < n && ops[p].key == k ==> ops[p].Find?
  }

  lemma {:induction false} FinalIsLastPut<K, V>(ops: seq<Op<K, V>>, n: nat, k: K) returns (j: nat)
    requires n <= |ops|
    ensures forall i: nat :: LastPut(ops, n, k, i) ==> i == j
    ensures k in Final(ops[..n]) <==> LastPut(ops, n, k, j)
    ensures LastPut(ops, n, k, j) ==> Final(ops[..n])[k] == ops[j].val
  {
    j := n;
    if n > 0 {
      var before := FinalIsLastPut(ops, n - 1, k);
      RunExtends(ops, n - 1);
      hide Final;
      j := if ops[n - 1].Put? && ops[n - 1].key == k then n - 1 else before;
      assert forall i: nat :: LastPut(ops, n, k, i) && i < n - 1 ==> LastPut(ops, n - 1, k, i);
    }
  }

  lemma {:induction false} RepliesAt<K, V>(ops: seq<Op<K, V>>, i: nat)
    requires i < |ops|
    ensures |Replies(ops)| == |ops| && Replies(ops)[i] == Reply(Final(ops[..i]), ops[i])
  {
    var n := |ops| - 1;
    if i < n {
      RepliesAt(ops[..n], i);
      assert ops[..n][..i] == ops[..i];
    } else if n > 0 {
      RepliesAt(ops[..n], n - 1);
    }
  }

  /** The reference answers from the history alone: a lookup or a removal with what the last put of its
      key put, unless the key has been removed since or never was put. */
  lemma RepliesFromHistory<K, V>(ops: seq<Op<K, V>>, i: nat)
    requires i < |ops|
    ensures |Replies(ops)| == |ops| && (ops[i].Put? ==> Replies(ops)[i] == None)
    ensures !ops[i].Put? ==>
      && (forall j: nat :: LastPut(ops, i, ops[i].key, j) ==> Replies(ops)[i] == Some(ops[j].val))
      && ((forall j: nat :: !LastPut(ops, i, ops[i].key, j)) ==> Replies(ops)[i] == None)
  {
    RepliesAt(ops, i);
    var j := FinalIsLastPut(ops, i, ops[i].key);
    hide Final;
    hide Replies;
  }

  /** `l'` is `l` or what one change makes of it. */
  ghost predicate Changed(l: Load, l': Load)
  {
    l' == l || exists c :: CanChange(l, c) && l' == After(l, c)
  }

  lemma PutChanges<K, V>(m: map<K, V>, k: K, v: V, l: Load, cap: nat, moved: nat)
    requires l.count == |m| && cap == InsertCap(l.cap, l.count)
    requires moved == l.moved + if cap != l.cap then l.count else 0
    ensures Changed(l, Load(cap, |m[k := v]|, moved))
  {
    if k in m {
      assert m[k := v].Keys == m.Keys;
      assert |m[k := v]| == |m|;
      assert CanChange(l, Replaced) && After(l, Replaced) == Load(cap, |m[k := v]|, moved);
    } else {
      assert m[k := v].Keys == m.Keys + {k};
      assert CanChange(l, Added) && After(l, Added) == Load(cap, |m[k := v]|, moved);
    }
  }

  lemma RemoveChanges<K, V>(m: map<K, V>, k: K, l: Load, cap: nat, moved: nat)
    requires k in m && l.count == |m| && cap == DeleteCap(l.cap, |m - {k}|)
    requires moved == l.moved + if cap != l.cap then |m - {k}| else 0
    ensures Changed(l, Load(cap, |m - {k}|, moved))
  {
    assert m.Keys == (m - {k}).Keys + {k};
    assert |m| == |m - {k}| + 1;
    assert CanChange(l, Removed) && After(l, Removed) == Load(cap, |m - {k}|, moved);
  }

  /** At most 255 keys are there, with the one an insertion brings. */
  ghost predicate Few<K, V>(m: map<K, V>, op: Op<K, V>)
  {
    |if op.Put? then m.Keys + {op.key} else m.Keys| <= MAX_DIB + 1
  }

  /** With few keys around, no capacity makes the valve open. */
  lemma FewStayShut<K, V>(m: map<K, V>, op: Op<K, V>, hash: K -> Hash, cap: nat)
    requires Few(m, op)
    ensures op.Put? ==> Fits(m.Keys + {op.key}, hash, cap)
    ensures Fits((m - {op.key}).Keys, hash, cap)
  {
    var ks := if op.Put? then m.Keys + {op.key} else m.Keys;
    FewKeysFit(ks, hash, cap);
    FitsSubset((m - {op.key}).Keys, ks, hash, cap);
  }

  /** Run one operation on a table. */
  method Perform<K(==, 0, !new), V(0)>(t: Table<K, V>, hash: K -> Hash, op: Op<K, V>, limit: nat)
    returns (r: Option<V>, ok: bool)
    requires t.Valid() && t.hash == hash && IsPow2(limit) && |t.slots| <= limit
    modifies t, t.meta, t.keys, t.vals, t.hashes
    ensures || (t.meta == old(t.meta) && t.keys == old(t.keys) && t.vals == old(t.vals) && t.hashes == old(t.hashes))
      || (fresh(t.meta) && fresh(t.keys) && fresh(t.vals) && fresh(t.hashes))
    ensures ok ==>
      t.Valid() && t.contents == Apply(old(t.contents), op) && r == Reply(old(t.contents), op) && |t.slots| <= limit
    ensures ok <==>
      !op.Put?
      || (InsertCap(old(|t.slots|), old(|t.contents|)) <= limit && Fits(old(t.contents).Keys + {op.key}, hash, limit))
    ensures ok ==> old(t.valves) <= t.valves
    ensures ok && Few(old(t.contents), op) ==> t.valves == old(t.valves)
    ensures ok && t.valves == old(t.valves) ==>
      Changed(Load(old(|t.slots|), old(|t.contents|), old(t.moved)), Load(|t.slots|, |t.contents|, t.moved))
  {
    t.Unfold();
    ghost var l := Load(|t.slots|, |t.contents|, t.moved);
    match op {
      case Put(k, v) =>
        r := None;
        hide *;
        if Few(t.contents, op) {
          FewStayShut(t.contents, op, hash, InsertCap(|t.slots|, |t.contents|));
        }
        ok := t.Insert(hash(k), k, v, limit);
        if ok && t.valves == old(t.valves) {
          PutChanges(old(t.contents), k, v, l, |t.slots|, t.moved);
        }
      case Find(k) =>
        ok := true;
        r := t.Lookup(hash(k), k);
      case Remove(k) =>
        ok := true;
        hide *;
        if Few(t.contents, op) {
          FewStayShut(t.contents, op, hash, DeleteCap(|t.slots|, |t.contents - {k}|));
        }
        r := t.Delete(hash(k), k);
        if k in old(t.contents) && t.valves == old(t.valves) {
          RemoveChanges(old(t.contents), k, l, |t.slots|, t.moved);
        }
    }
  }

  /** What a run has established after `ops`: the table holds the reference map and, as long
      as the valve has never opened, resizing has been paid for. */
  ghost predicate RanTo<K(0, !new), V(0)>(t: Table<K, V>, hash: K -> Hash, ops: seq<Op<K, V>>, limit: nat)
    reads t, t.meta, t.keys, t.vals, t.hashes
  {
    && t.Valid() && t.hash == hash && |t.slots| <= limit && t.contents == Final(ops)
    && (t.valves == 0 ==> Paid(Load(|t.slots|, |t.contents|, t.moved), |ops|))
  }

  ghost predicate Paid(l: Load, n: nat)
  {
    Balanced(l) && 8 * l.moved + Potential(l) <= 48 + 24 * n
  }

  lemma PaidStep(l: Load, l': Load, n: nat)
    requires Paid(l, n) && Changed(l, l')
    ensures Paid(l', n + 1)
  {
    if c :| CanChange(l, c) && l' == After(l, c) {
      ChangeIsPaid(l, c);
    }
  }

  /** Operation `i` is no insertion, or one whose keys fit the limit. */
  ghost predicate PutFits<K(!new), V>(ops: seq<Op<K, V>>, i: nat, hash: K -> Hash, limit: nat)
    requires i < |ops|
  {
    ops[i].Put? ==> Fits(Final(ops[..i]).Keys + {ops[i].key}, hash, limit)
  }

  ghost predicate PutsFit<K(!new), V>(ops: seq<Op<K, V>>, hash: K -> Hash, limit: nat)
  {
    PutsFitTo(ops, |ops|, hash, limit)
  }

  ghost predicate PutsFitTo<K(!new), V>(ops: seq<Op<K, V>>, n: nat, hash: K -> Hash, limit: nat)
    requires n <= |ops|
  {
    forall i :: 0 <= i < n ==> PutFits(ops, i, hash, limit)
  }

  lemma PutsFitNext<K(!new), V>(ops: seq<Op<K, V>>, i: nat, hash: K -> Hash, limit: nat)
    requires i < |ops| && PutsFitTo(ops, i, hash, limit)
    ensures if PutFits(ops, i, hash, limit) then PutsFitTo(ops, i + 1, hash, limit) else !PutsFit(ops, hash, limit)
  {
    hide PutFits;
  }

  lemma PutsFitEnds<K(!new), V>(ops: seq<Op<K, V>>, hash: K -> Hash, limit: nat)
    ensures PutsFitTo(ops, 0, hash, limit) && (PutsFitTo(ops, |ops|, hash, limit) ==> PutsFit(ops, hash, limit))
  {
  }

  /** Room for the entries the run can hold, whatever their hashes. */
  predicate Roomy(n: nat, limit: nat)
  {
    4 * n < 3 * limit
  }

  lemma RoomyStep<K, V>(ops: seq<Op<K, V>>, i: nat, cap: nat, limit: nat)
    requires Roomy(|ops|, limit) && i < |ops| && IsPow2(cap) && IsPow2(limit) && cap <= limit
    ensures InsertCap(cap, |Final(ops[..i])|) <= limit
  {
    FinalBounds(ops[..i]);
    if cap < limit {
      Pow2Double(cap, limit);
    }
  }

  /** At every insertion of the run at most 255 keys are present, the new one included. */
  ghost predicate FewPresent<K, V>(ops: seq<Op<K, V>>)
  {
    forall i :: 0 <= i < |ops| && ops[i].Put? ==> Few(Final(ops[..i]), ops[i])
  }

  /** Then there are never more. */
  lemma {:induction false} FewSoFar<K, V>(ops: seq<Op<K, V>>, i: nat)
    requires i < |ops| && FewPresent(ops)
    ensures |Final(ops[..i])| <= MAX_DIB + 1 && Few(Final(ops[..i]), ops[i])
  {
    if i > 0 {
      FewSoFar(ops, i - 1);
      RunExtends(ops, i - 1);
      var m, op := Final(ops[..i - 1]), ops[i - 1];
      assert Final(ops[..i]).Keys <= if op.Put? then m.Keys + {op.key} else m.Keys;
      SubsetSize(Final(ops[..i]).Keys, if op.Put? then m.Keys + {op.key} else m.Keys);
    }
    assert ops[i].Put? ==> Few(Final(ops[..i]), ops[i]);
  }

  lemma RunExtends<K, V>(ops: seq<Op<K, V>>, i: nat)
    requires i < |ops|
    ensures Final(ops[..i + 1]) == Apply(Final(ops[..i]), ops[i])
    ensures Replies(ops[..i + 1]) == Replies(ops[..i]) + [Reply(Final(ops[..i]), ops[i])]
  {
    assert ops[..i + 1][..i] == ops[..i];
  }

  lemma RanUnfold<K(0, !new), V(0)>(t: Table<K, V>, hash: K -> Hash, ops: seq<Op<K, V>>, limit: nat)
    requires RanTo(t, hash, ops, limit)
    ensures t.Valid() && t.hash == hash && |t.slots| <= limit && t.contents == Final(ops) && IsPow2(|t.slots|)
    ensures t.valves == 0 ==> Paid(Load(|t.slots|, |t.contents|, t.moved), |ops|)
  {
  }

  lemma RanFold<K(0, !new), V(0)>(t: Table<K, V>, hash: K -> Hash, ops: seq<Op<K, V>>, limit: nat)
    requires t.Valid() && t.hash == hash && |t.slots| <= limit && t.contents == Final(ops)
    requires t.valves == 0 ==> Paid(Load(|t.slots|, |t.contents|, t.moved), |ops|)
    ensures RanTo(t, hash, ops, limit)
  {
  }

  lemma PutFitsIs<K(!new), V>(ops: seq<Op<K, V>>, i: nat, hash: K -> Hash, limit: nat)
    requires i < |ops|
    ensures PutFits(ops, i, hash, limit) <==> !ops[i].Put? || Fits(Final(ops[..i]).Keys + {ops[i].key}, hash, limit)
  {
  }

  /** One more operation of a run. */
  method Advance<K(==, 0, !new), V(0)>(t: Table<K, V>, hash: K -> Hash, ops: seq<Op<K, V>>, i: nat, limit: nat)
    returns (r: Option<V>, ok: bool)
    requires i < |ops| && IsPow2(limit) && RanTo(t, hash, ops[..i], limit)
    modifies t, t.meta, t.keys, t.vals, t.hashes
    ensures || (t.meta == old(t.meta) && t.keys == old(t.keys) && t.vals == old(t.vals) && t.hashes == old(t.hashes))
      || (fresh(t.meta) && fresh(t.keys) && fresh(t.vals) && fresh(t.hashes))
    ensures ok ==> RanTo(t, hash, ops[..i + 1], limit) && r == Reply(Final(ops[..i]), ops[i])
    ensures ok ==> PutFits(ops, i, hash, limit)
    ensures Roomy(|ops|, limit) && PutFits(ops, i, hash, limit) ==> ok
    ensures ok && FewPresent(ops) ==> t.valves == old(t.valves)
  {
    hide *;
    RanUnfold(t, hash, ops[..i], limit);
    RunExtends(ops, i);
    if FewPresent(ops) {
      FewSoFar(ops, i);
    }
    PutFitsIs(ops, i, hash, limit);
    if Roomy(|ops|, limit) {
      RoomyStep(ops, i, |t.slots|, limit);
    }
    ghost var l := Load(|t.slots|, |t.contents|, t.moved);
    r, ok := Perform(t, hash, ops[i], limit);
    if ok {
      if t.valves == 0 {
        PaidStep(l, Load(|t.slots|, |t.contents|, t.moved), i);
      }
      RanFold(t, hash, ops[..i + 1], limit);
    }
  }

  lemma RunStarts<K(0, !new), V(0)>(t: Table<K, V>, hash: K -> Hash, ops: seq<Op<K, V>>, limit: nat)
    requires t.Valid() && t.hash == hash && t.contents == map[] && t.valves == t.moved == 0
    requires |t.slots| == MIN_CAP <= limit
    ensures RanTo(t, hash, ops[..0], limit) && Replies(ops[..0]) == []
  {
  }

  lemma RunEnds<K(0, !new), V(0)>(t: Table<K, V>, hash: K -> Hash, ops: seq<Op<K, V>>, limit: nat)
    requires RanTo(t, hash, ops, limit)
    ensures t.Valid() && t.contents == Final(ops)
    ensures t.valves == 0 ==> Balanced(Load(|t.slots|, |t.contents|, t.moved)) && t.moved <= 3 * |ops| + 6
  {
  }

  /** Over every run from an empty table, for every hash function, whenever the calls return
      they answer exactly as a finite map; given room for the entries, they all return exactly
      when every insertion's keys fit the limit; and a run in which the valve stays shut, as it
      does while at most 255 keys are present, keeps the load between one quarter and three quarters and
      moves at most 3n + 6 entries in all its resizes. */
  method RunAll<K(==, 0, !new), V(0)>(hash: K -> Hash, ops: seq<Op<K, V>>, limit: nat)
    returns (replies: seq<Option<V>>, ok: bool, t: Table<K, V>)
    requires IsPow2(limit) && limit >= MIN_CAP
    ensures fresh(t)
    ensures ok ==> replies == Replies(ops) && t.contents == Final(ops) && t.Valid()
    ensures Roomy(|ops|, limit) ==> (ok <==> PutsFit(ops, hash, limit))
    ensures ok && FewPresent(ops) ==> t.valves == 0
    ensures ok && t.valves == 0 ==>
      Balanced(Load(|t.slots|, |t.contents|, t.moved)) && t.moved <= 3 * |ops| + 6
  {
    t := new Table(0, hash);
    RunStarts(t, hash, ops, limit);
    hide *;
    PutsFitEnds(ops, hash, limit);
    replies, ok := [], true;
    var i := 0;
    while i < |ops| && ok
      invariant 0 <= i <= |ops|
      invariant fresh(t) && fresh(t.meta) && fresh(t.keys) && fresh(t.vals) && fresh(t.hashes)
      invariant ok ==> RanTo(t, hash, ops[..i], limit) && replies == Replies(ops[..i])
      invariant ok ==> PutsFitTo(ops, i, hash, limit)
      invariant !ok && Roomy(|ops|, limit) ==> !PutsFit(ops, hash, limit)
      invariant ok && FewPresent(ops) ==> t.valves == 0
    {
      RunExtends(ops, i);
      var r;
      PutsFitNext(ops, i, hash, limit);
      r, ok := Advance(t, hash, ops, i, limit);
      replies := replies + [r];
      i := i + 1;
    }
    assert i == |ops| ==> ops[..i] == ops;
    if ok {
      RunEnds(t, hash, ops, limit);
    }
  }

  /** One insertion with unbounded memory ends, that is, `Insert` succeeds at some limit, if and
      only if the resulting keys overcrowd no window of hash values. */
  lemma InsertEndsIff<K>(ks: set<K>, hash: K -> Hash, cap: nat, count: nat)
    ensures (exists limit: nat ::
               IsPow2(limit) && cap <= limit && InsertCap(cap, count) <= limit && Fits(ks, hash, limit))
       <==> Spread(ks, hash)
  {
    hide Fits;
    hide Spread;
    if limit: nat :| IsPow2(limit) && Fits(ks, hash, limit) {
      FitsIsSpread(ks, hash, limit);
    }
    if Spread(ks, hash) {
      var c := Pow2Above(0x2_0000_0000_0000_0000 + 2 * cap);
      SpreadFits(ks, hash, c);
      assert IsPow2(c) && cap <= c && InsertCap(cap, count) <= c && Fits(ks, hash, c);
    }
  }

  /** Whenever a key is inserted, no window of hash values is overcrowded by it and those present. */
  ghost predicate PutsSpread<K(!new), V>(ops: seq<Op<K, V>>, hash: K -> Hash)
  {
    forall i :: 0 <= i < |ops| && ops[i].Put? ==> Spread(Final(ops[..i]).Keys + {ops[i].key}, hash)
  }

  /** A run with unbounded memory ends, that is, `RunAll` completes at some limit with room for its
      entries, if and only if no insertion overcrowds a window of hash values. */
  lemma RunEndsIff<K(!new), V>(ops: seq<Op<K, V>>, hash: K -> Hash)
    ensures (exists limit: nat :: IsPow2(limit) && limit >= MIN_CAP && Roomy(|ops|, limit) && PutsFit(ops, hash, limit))
       <==> PutsSpread(ops, hash)
  {
    hide Fits;
    hide Spread;
    if limit: nat :| IsPow2(limit) && limit >= MIN_CAP && Roomy(|ops|, limit) && PutsFit(ops, hash, limit) {
      forall i | 0 <= i < |ops| && ops[i].Put?
        ensures Spread(Final(ops[..i]).Keys + {ops[i].key}, hash)
      {
        assert PutFits(ops, i, hash, limit);
        FitsIsSpread(Final(ops[..i]).Keys + {ops[i].key}, hash, limit);
      }
    }
    if PutsSpread(ops, hash) {
      var c := Pow2Above(0x2_0000_0000_0000_0000 + 4 * |ops|);
      forall i | 0 <= i < |ops|
        ensures PutFits(ops, i, hash, c)
      {
        if ops[i].Put? {
          SpreadFits(Final(ops[..i]).Keys + {ops[i].key}, hash, c);
        }
      }
      assert PutsFit(ops, hash, c) && Roomy(|ops|, c);
    }
  }

  /** The keys an insertion meets have pairwise distinct hashes, or number at most 255: then the run ends. */
  lemma RunEndsFor<K(!new), V>(ops: seq<Op<K, V>>, hash: K -> Hash)
    requires forall i :: 0 <= i < |ops| && ops[i].Put? ==>
      DistinctHashes(Final(ops[..i]).Keys + {ops[i].key}, hash) || Few(Final(ops[..i]), ops[i])
    ensures PutsSpread(ops, hash)
  {
    forall i | 0 <= i < |ops| && ops[i].Put?
      ensures Spread(Final(ops[..i]).Keys + {ops[i].key}, hash)
    {
      var ks := Final(ops[..i]).Keys + {ops[i].key};
      if Few(Final(ops[..i]), ops[i]) {
        FewKeysFit(ks, hash, 1);
        FitsIsSpread(ks, hash, 1);
      } else {
        DistinctHashesSpread(ks, hash);
      }
    }
  }

  /** Inserting 256 keys that share one hash ends at no limit. */
  lemma SharedHashNeverEnds<K(!new), V>(ops: seq<Op<K, V>>, shared: set<K>, hash: K -> Hash, h: Hash, i: nat)
    requires i < |ops| && ops[i].Put? && shared <= Final(ops[..i]).Keys + {ops[i].key} && |shared| > MAX_DIB + 1
    requires forall k :: k in shared ==> hash(k) == h
    ensures !PutsSpread(ops, hash)
  {
    var ks := Final(ops[..i]).Keys + {ops[i].key};
    SomeCapacityFits(ks, hash);
    if Spread(ks, hash) {
      var cap :| IsPow2(cap) && Fits(ks, hash, cap);
      SharedHashNeverFits(ks, shared, hash, h, cap);
    }
  }

  lemma RestoreIff<K(!new), V>(s: seq<Slot<K, V>>, t: seq<Slot<K, V>>, u: seq<Slot<K, V>>, m: map<K, V>,
                               hash: K -> Hash, e: Entry<K, V>, at: nat)
    requires Layout(s) && Holds(s, m, hash) && e.hash == hash(e.key) && e.key !in m
    requires Inserted(s, t, e) && |t| == |s| && Holds(t, m[e.key := e.val], hash)
    requires at < |t| && t[at].Full? && t[at].e.key == e.key && Deleted(t, u, at)
    ensures u == s <==> NoTwins(s, e.hash)
  {
    hide Layout;
    hide Holds;
    hide NoTwins;
    var z :| 0 <= z < |s| && s[z].Empty? && t == Place(s, z, Home(e.hash, |s|), e, 0);
    var y :| 0 <= y < |t| && t[y].Empty? && y != at && u == Close(t[at := Empty], y, at);
    DeleteRestores(s, m, hash, e, z, y, at);
  }

  lemma RemoveAdded<K, V>(m: map<K, V>, k: K, v: V)
    requires k !in m
    ensures m[k := v] - {k} == m
  {
  }

  /** Inserting a new key and deleting it again.  The map is restored always; which slots are
      filled, and how far each is from home, whenever the capacity is what it was; the exact
      slots, without resizes, if and only if no two neighbours beyond the insertion point
      share a home. */
  method InsertThenDelete<K(==, 0, !new), V(0)>(t: Table<K, V>, hash: K -> Hash, k: K, v: V, limit: nat)
    returns (ok: bool, r: Option<V>)
    requires t.Valid() && t.hash == hash && IsPow2(limit) && |t.slots| <= limit && k !in t.contents
    modifies t, t.meta, t.keys, t.vals, t.hashes
    ensures ok ==> r == Some(v) && t.Valid() && t.contents == old(t.contents)
    ensures ok && |t.slots| == old(|t.slots|) ==> SameShape(old(t.slots), t.slots)
    ensures ok && t.valves == old(t.valves)
      && InsertCap(old(|t.slots|), old(|t.contents|)) == old(|t.slots|) == DeleteCap(old(|t.slots|), old(|t.contents|))
      ==> (t.slots == old(t.slots) <==> NoTwins(old(t.slots), hash(k)))
  {
    hide *;
    t.Unfold();
    ghost var s, m, e := t.slots, t.contents, Entry(hash(k), k, v);
    RemoveAdded(m, k, v);
    ok := t.Insert(hash(k), k, v, limit);
    if !ok {
      return ok, None;
    }
    t.Unfold();
    ghost var mid := t.slots;
    r := t.Delete(hash(k), k);
    t.Unfold();
    if |t.slots| == |s| {
      HistoryIndependent(s, t.slots, m, t.contents, hash);
    }
    if t.valves == old(t.valves) && InsertCap(|s|, |m|) == |s| == DeleteCap(|s|, |m|) {
      ghost var at: int :| 0 <= at < |mid| && mid[at].Full? && mid[at].e.key == k && Deleted(mid, t.slots, at);
      RestoreIff(s, mid, t.slots, m, hash, e, at);
    }
  }

  /** The comment on deletion promises exactly the state the table would hold had the key
      never been inserted.  Four keys refute it: two share home 1 behind two of home 0. */
  lemma DeleteMayReorder()
    ensures exists s: seq<Slot<nat, nat>>, t: seq<Slot<nat, nat>>, u: seq<Slot<nat, nat>>, e: Entry<nat, nat>,
      m: map<nat, nat>, hash: nat -> Hash ::
      && Layout(s) && Holds(s, m, hash) && e.key !in m && e.hash == hash(e.key)
      && Inserted(s, t, e) && Deleted(t, u, 1) && t[1] == Full(e, 1) && u != s
  {
    ReorderLayout();
    ReorderInserts();
    ReorderDeletes();
    var m, hash := map[10 := 0, 11 := 0, 12 := 0], (k: nat) => if k == 11 || k == 12 then 1 else 0 as Hash;
    ReorderHolds(BEFORE, m, hash);
    assert REVERSED[1] != BEFORE[1];
    assert Layout(BEFORE) && Holds(BEFORE, m, hash) && NEWCOMER.key !in m && NEWCOMER.hash == hash(NEWCOMER.key);
  }

  const NEWCOMER: Entry<nat, nat> := Entry(0, 13, 0)
  const BEFORE: seq<Slot<nat, nat>> :=
    [Full(Entry(0, 10, 0), 0), Full(Entry(1, 11, 0), 0), Full(Entry(1, 12, 0), 1), Empty, Empty, Empty, Empty, Empty]
  const BETWEEN: seq<Slot<nat, nat>> :=
    [Full(Entry(0, 10, 0), 0), Full(NEWCOMER, 1), Full(Entry(1, 12, 0), 1), Full(Entry(1, 11, 0), 2),
     Empty, Empty, Empty, Empty]
  const REVERSED: seq<Slot<nat, nat>> :=
    [Full(Entry(0, 10, 0), 0), Full(Entry(1, 12, 0), 0), Full(Entry(1, 11, 0), 1), Empty, Empty, Empty, Empty, Empty]

  lemma ReorderLayout()
    ensures Layout(BEFORE)
  {
    var s := BEFORE;
    assert forall i :: 0 <= i < |s| ==> SlotOk(s, i);
  }

  lemma ReorderInserts()
    ensures Inserted(BEFORE, BETWEEN, NEWCOMER)
  {
    var s, t, a := BEFORE, BETWEEN, Entry(1, 11, 0);
    var s1 := s[1 := Full(NEWCOMER, 1)];
    assert s1[3 := Full(a, 2)] == t;
    assert Place(s1, 3, 3, a, 2) == t;
    assert Place(s1, 3, 2, a, 1) == t;
    assert Place(s, 3, 1, NEWCOMER, 1) == t;
    assert Place(s, 3, 0, NEWCOMER, 0) == t;
    InsertedBy(s, t, NEWCOMER, 3, t);
  }

  lemma ReorderDeletes()
    ensures Deleted(BETWEEN, REVERSED, 1)
  {
    var t, u := BETWEEN, REVERSED;
    var t1 := t[1 := Empty];
    var t2 := [Full(Entry(0, 10, 0), 0), Full(Entry(1, 12, 0), 0), Empty, Full(Entry(1, 11, 0), 2),
               Empty, Empty, Empty, Empty];
    assert Shift(t1, 1) == t2 && Shift(t2, 2) == u;
    assert Close(u, 7, 3) == u;
    assert Close(t2, 7, 2) == u;
    assert Close(t1, 7, 1) == u;
    DeletedBy(t, 1, 7, u);
  }

  lemma ReorderHolds(s: seq<Slot<nat, nat>>, m: map<nat, nat>, hash: nat -> Hash)
    requires s == [Full(Entry(0, 10, 0), 0), Full(Entry(1, 11, 0), 0), Full(Entry(1, 12, 0), 1),
                   Empty, Empty, Empty, Empty, Empty]
    requires m == map[10 := 0, 11 := 0, 12 := 0] && hash(10) == 0 && hash(11) == 1 && hash(12) == 1
    ensures Holds(s, m, hash)
  {
    assert s[0].e.key == 10 && s[1].e.key == 11 && s[2].e.key == 12;
    assert At(s, 10) && At(s, 11) && At(s, 12);
  }
}
