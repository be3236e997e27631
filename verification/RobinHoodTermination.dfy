/** When insertion ends.  Growing stops at the first capacity whose windows of homes are
    not overcrowded; the lemmas here say for which key sets such a capacity exists. */
module RobinHoodTermination {
  import opened Finite
  import opened Ring
  import opened RobinHoodLayout

  /** The keys whose 64-bit hash is one of the `len` values from `lo` on. */
  ghost function HashedIn<K>(ks: set<K>, hash: K -> Hash, lo: nat, len: nat): set<K>
  {
    set k | k in ks && lo <= hash(k) < lo + len
  }

  /** Windows of hash values, with no capacity in sight: never more than 254 keys beyond
      the number of values. */
  ghost predicate Spread<K>(ks: set<K>, hash: K -> Hash)
  {
    forall lo, len :: 0 <= lo && 1 <= len ==> |HashedIn(ks, hash, lo, len)| <= len + MAX_DIB
  }

  lemma {:induction false} Pow2Above(n: nat) returns (c: nat)
    ensures IsPow2(c) && c >= n
  {
    c := 1;
    while c < n
      invariant IsPow2(c)
    {
      c := 2 * c;
    }
  }

  /** Past 2^64 slots every hash is its own home, so a capacity that fits bounds every window of hashes. */
  lemma FitsIsSpread<K>(ks: set<K>, hash: K -> Hash, cap: nat)
    requires IsPow2(cap) && Fits(ks, hash, cap)
    ensures Spread(ks, hash)
  {
    var c := Pow2Above(0x1_0000_0000_0000_0000);
    c := if c < cap then cap else c;
    FitsLarger(ks, hash, cap, c);
    hide Home;
    forall lo, len | 0 <= lo && 1 <= len ensures |HashedIn(ks, hash, lo, len)| <= len + MAX_DIB {
      if lo < c {
        var n := if len <= c then len else c;
        forall k | k in HashedIn(ks, hash, lo, len) ensures k in KeysIn(ks, hash, lo, n, c) {
          HomeSmall(hash(k), c);
        }
        SubsetSize(HashedIn(ks, hash, lo, len), KeysIn(ks, hash, lo, n, c));
      } else {
        assert HashedIn(ks, hash, lo, len) == {};
      }
    }
  }

  lemma SpreadFits<K>(ks: set<K>, hash: K -> Hash, cap: nat)
    requires cap >= 0x2_0000_0000_0000_0000 && Spread(ks, hash)
    ensures Fits(ks, hash, cap)
  {
    hide Home;
    forall a, len | 0 <= a < cap && 1 <= len <= cap ensures |KeysIn(ks, hash, a, len, cap)| <= len + MAX_DIB {
      var lo, n := a, len;
      if a + len > cap {
        lo := 0;
        n := if a >= 0x1_0000_0000_0000_0000 then a + len - cap else 0x1_0000_0000_0000_0000;
      }
      forall k | k in KeysIn(ks, hash, a, len, cap) ensures k in HashedIn(ks, hash, lo, n) {
        HomeSmall(hash(k), cap);
      }
      SubsetSize(KeysIn(ks, hash, a, len, cap), HashedIn(ks, hash, lo, n));
    }
  }

  /** Some capacity fits the keys exactly when no window of hash values is overcrowded. */
  lemma SomeCapacityFits<K>(ks: set<K>, hash: K -> Hash)
    ensures (exists cap :: IsPow2(cap) && Fits(ks, hash, cap)) <==> Spread(ks, hash)
  {
    if cap :| IsPow2(cap) && Fits(ks, hash, cap) {
      FitsIsSpread(ks, hash, cap);
    }
    if Spread(ks, hash) {
      var c := Pow2Above(0x2_0000_0000_0000_0000);
      SpreadFits(ks, hash, c);
    }
  }

  ghost predicate DistinctHashes<K(!new)>(ks: set<K>, hash: K -> Hash)
  {
    forall j, k :: j in ks && k in ks && j != k ==> hash(j) != hash(k)
  }

  /** Keys with pairwise distinct hashes always fit some capacity. */
  lemma DistinctHashesSpread<K(!new)>(ks: set<K>, hash: K -> Hash)
    requires DistinctHashes(ks, hash)
    ensures Spread(ks, hash)
  {
    forall lo, len | 0 <= lo && 1 <= len ensures |HashedIn(ks, hash, lo, len)| <= len + MAX_DIB {
      var f := map k | k in HashedIn(ks, hash, lo, len) :: hash(k);
      assert f.Keys == HashedIn(ks, hash, lo, len);
      Matched(f);
      var cap := lo + len;
      ArcSize(lo, len, cap);
      SubsetSize(f.Values, Arc(lo, len, cap));
    }
  }

  /** Up to 255 keys fit every capacity, whatever their hashes: the valve stays shut. */
  lemma FewKeysFit<K>(ks: set<K>, hash: K -> Hash, cap: nat)
    requires |ks| <= MAX_DIB + 1
    ensures Fits(ks, hash, cap)
  {
    hide InWindow;
    forall a, len | 0 <= a < cap && 1 <= len <= cap ensures |KeysIn(ks, hash, a, len, cap)| <= len + MAX_DIB {
      SubsetSize(KeysIn(ks, hash, a, len, cap), ks);
    }
  }

  /** 256 keys that share one hash fit no capacity at all. */
  lemma SharedHashNeverFits<K>(ks: set<K>, shared: set<K>, hash: K -> Hash, h: Hash, cap: nat)
    requires shared <= ks && |shared| > MAX_DIB + 1
    requires forall k :: k in shared ==> hash(k) == h
    requires cap >= 1
    ensures !Fits(ks, hash, cap)
  {
    var a := Home(h, cap);
    SubsetSize(shared, KeysIn(ks, hash, a, 1, cap));
  }
}
