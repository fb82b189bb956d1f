// The scanner's cache of recently forwarded devices: a map from device key to
// the time the device was last forwarded, and a recency list from the oldest
// entry (head) to the newest (tail). A device is forwarded again only once its
// entry is at least TTL old; entries older than TTL are dropped from the head.

module MacCache {
  import opened Bytes

  /** 20 minutes in microseconds. */
  const TTL: int := 20 * 60 * 1000000

  /** A device key: the six address bytes and the address type. */
  datatype MacKey = MacKey(addr: seq<uint8>, addrType: uint8)

  /** `MacKey::operator==`: the address types and all six address bytes
      agree. */
  function KeyEquals(a: MacKey, b: MacKey): (r: bool)
    requires |a.addr| == 6 && |b.addr| == 6
    ensures r <==> a == b
  {
    a.addrType == b.addrType && forall i :: 0 <= i < 6 ==> a.addr[i] == b.addr[i]
  }

  /** The contents of the cache: the timestamp of every key, and the keys
      from head to tail. */
  datatype CacheState = CacheState(stamps: map<MacKey, int>, order: seq<MacKey>)

  predicate Distinct(s: seq<MacKey>)
  {
    forall i, j :: 0 <= i < j < |s| ==> s[i] != s[j]
  }

  /** Every listed key has a timestamp. */
  predicate Covered(s: CacheState)
  {
    forall i :: 0 <= i < |s.order| ==> s.order[i] in s.stamps
  }

  /** The map's keys are exactly the list's keys, each listed once. */
  ghost predicate Valid(s: CacheState)
  {
    Distinct(s.order) && Covered(s) && forall k :: k in s.stamps ==> k in s.order
  }

  /** Timestamps do not decrease from head to tail. */
  predicate Sorted(s: CacheState)
    requires Covered(s)
  {
    forall i, j :: 0 <= i < j < |s.order| ==> s.stamps[s.order[i]] <= s.stamps[s.order[j]]
  }

  predicate NoneAfter(s: CacheState, now: int)
  {
    forall k :: k in s.stamps ==> s.stamps[k] <= now
  }

  function IndexOf(s: seq<MacKey>, k: MacKey): (i: nat)
    requires k in s
    ensures i < |s| && s[i] == k
    ensures forall j :: 0 <= j < i ==> s[j] != k
  {
    if s[0] == k then 0 else 1 + IndexOf(s[1..], k)
  }

  /** `moveToTail`: the key is unlinked from its place and relinked at the
      tail (nothing moves when it already is the tail). */
  function MoveToTail(s: seq<MacKey>, k: MacKey): (r: seq<MacKey>)
    requires k in s
    ensures |r| == |s| && r[|r| - 1] == k
    ensures forall a :: 0 <= a < IndexOf(s, k) ==> r[a] == s[a]
    ensures forall a :: IndexOf(s, k) <= a < |s| - 1 ==> r[a] == s[a + 1]
  {
    var i := IndexOf(s, k);
    s[..i] + s[i + 1..] + [k]
  }

  /** Moving the tail to the tail leaves the list as it was. */
  lemma MoveTailIsNoOp(s: seq<MacKey>, k: MacKey)
    requires Distinct(s) && s != [] && s[|s| - 1] == k
    ensures MoveToTail(s, k) == s
  {
  }

  /** `shouldPrintAndAddToCache`: whether the device is forwarded, and the
      cache afterwards. */
  function Touch(s: CacheState, k: MacKey, now: int): (bool, CacheState)
    requires Valid(s)
  {
    if k in s.stamps then
      if now - s.stamps[k] < TTL then (false, s)
      else (true, CacheState(s.stamps[k := now], MoveToTail(s.order, k)))
    else (true, CacheState(s.stamps[k := now], s.order + [k]))
  }

  /** `evictOld`: entries are dropped from the head while the head is more
      than TTL old. */
  function Evict(s: CacheState, now: int): CacheState
    decreases |s.order|
  {
    if s.order != [] && s.order[0] in s.stamps && now - s.stamps[s.order[0]] > TTL then
      Evict(CacheState(s.stamps - {s.order[0]}, s.order[1..]), now)
    else s
  }

  // ---------------------------------------------------------------------
  // Properties of the operations

  /** A device is forwarded exactly when it is new or its entry is at least
      TTL old; a forwarded device is stamped `now` and becomes the tail, an
      unforwarded one leaves the cache as it was, and no other entry
      changes. */
  lemma TouchOutcome(s: CacheState, k: MacKey, now: int)
    requires Valid(s)
    ensures var (fwd, t) := Touch(s, k, now);
      (fwd <==> k !in s.stamps || now - s.stamps[k] >= TTL)
      && (fwd ==> t.stamps == s.stamps[k := now] && t.order[|t.order| - 1] == k)
      && (!fwd ==> t == s)
      && |t.order| == |s.order| + (if k in s.stamps then 0 else 1)
  {
  }

  /** Unlinking and relinking keeps every key once. */
  lemma MoveToTailKeys(s: seq<MacKey>, k: MacKey)
    requires Distinct(s) && k in s
    ensures var r := MoveToTail(s, k);
      Distinct(r) && (forall x :: x in s ==> x in r) && (forall a :: 0 <= a < |r| - 1 ==> r[a] != k)
  {
    var i := IndexOf(s, k);
    var r := MoveToTail(s, k);
    forall x | x in s ensures x in r {
      var j :| 0 <= j < |s| && s[j] == x;
      if j < i {
        assert r[j] == x;
      } else if j > i {
        assert r[j - 1] == x;
      }
    }
    forall a | 0 <= a < |r| - 1 ensures r[a] != k {
      if a >= i {
        assert r[a] == s[a + 1];
      }
    }
    forall a, b | 0 <= a < b < |r| - 1 ensures r[a] != r[b] {
      var a' := if a < i then a else a + 1;
      var b' := if b < i then b else b + 1;
      assert r[a] == s[a'] && r[b] == s[b'];
    }
  }

  lemma TouchPreservesValid(s: CacheState, k: MacKey, now: int)
    requires Valid(s)
    ensures Valid(Touch(s, k, now).1)
  {
    var t := Touch(s, k, now).1;
    if k in s.stamps {
      if now - s.stamps[k] >= TTL {
        MoveToTailKeys(s.order, k);
        forall a | 0 <= a < |t.order| ensures t.order[a] in t.stamps {
          var i := IndexOf(s.order, k);
          if a < i {
            assert t.order[a] == s.order[a];
          } else if a < |t.order| - 1 {
            assert t.order[a] == s.order[a + 1];
          }
        }
      }
    } else {
      forall a, b | 0 <= a < b < |t.order| ensures t.order[a] != t.order[b] {
        assert t.order[a] == s.order[a];
      }
      forall a | 0 <= a < |t.order| ensures t.order[a] in t.stamps {
        if a < |s.order| {
          assert t.order[a] == s.order[a];
        }
      }
    }
  }

  /** With a clock that does not go back, the list stays ordered by
      timestamp. */
  lemma TouchKeepsSorted(s: CacheState, k: MacKey, now: int)
    requires Valid(s) && Sorted(s) && NoneAfter(s, now)
    ensures Valid(Touch(s, k, now).1)
    ensures Sorted(Touch(s, k, now).1) && NoneAfter(Touch(s, k, now).1, now)
  {
    TouchPreservesValid(s, k, now);
    if k in s.stamps && now - s.stamps[k] >= TTL {
      MovedKeepsSorted(s, k, now);
    } else if k !in s.stamps {
      AppendedKeepsSorted(s, k, now);
    }
  }

  lemma MovedKeepsSorted(s: CacheState, k: MacKey, now: int)
    requires Valid(s) && Sorted(s) && NoneAfter(s, now) && k in s.stamps
    ensures var t := CacheState(s.stamps[k := now], MoveToTail(s.order, k));
      Covered(t) && Sorted(t)
  {
    var t := CacheState(s.stamps[k := now], MoveToTail(s.order, k));
    var i := IndexOf(s.order, k);
    MoveToTailKeys(s.order, k);
    forall a | 0 <= a < |t.order| - 1 ensures t.order[a] in s.stamps && t.stamps[t.order[a]] == s.stamps[t.order[a]] {
      if a >= i {
        assert t.order[a] == s.order[a + 1];
      }
    }
    forall a, b | 0 <= a < b < |t.order| ensures t.stamps[t.order[a]] <= t.stamps[t.order[b]] {
      if b < |t.order| - 1 {
        var a' := if a < i then a else a + 1;
        var b' := if b < i then b else b + 1;
        assert t.order[a] == s.order[a'] && t.order[b] == s.order[b'];
      }
    }
  }

  lemma AppendedKeepsSorted(s: CacheState, k: MacKey, now: int)
    requires Covered(s) && Sorted(s) && NoneAfter(s, now) && k !in s.stamps
    ensures var t := CacheState(s.stamps[k := now], s.order + [k]);
      Covered(t) && Sorted(t)
  {
    var t := CacheState(s.stamps[k := now], s.order + [k]);
    forall a | 0 <= a < |s.order| ensures t.order[a] == s.order[a] && t.order[a] != k {
    }
    forall a, b | 0 <= a < b < |t.order| ensures t.stamps[t.order[a]] <= t.stamps[t.order[b]] {
      if b < |s.order| {
        assert t.order[b] == s.order[b];
      }
    }
  }

  /** Eviction drops a prefix of the list and only entries more than TTL
      old; the entries it keeps keep their timestamps, and its new head (when
      it has one) is not expired. */
  lemma {:induction false} EvictDropsExpiredPrefix(s: CacheState, now: int)
    ensures var r := Evict(s, now);
      |r.order| <= |s.order| && r.order == s.order[|s.order| - |r.order|..]
      && (forall k :: k in r.stamps ==> k in s.stamps && r.stamps[k] == s.stamps[k])
      && (forall i :: 0 <= i < |s.order| - |r.order| ==> s.order[i] in s.stamps && now - s.stamps[s.order[i]] > TTL)
      && (r.order != [] && r.order[0] in r.stamps ==> now - r.stamps[r.order[0]] <= TTL)
    decreases |s.order|
  {
    if s.order != [] && s.order[0] in s.stamps && now - s.stamps[s.order[0]] > TTL {
      var next := CacheState(s.stamps - {s.order[0]}, s.order[1..]);
      EvictDropsExpiredPrefix(next, now);
      var r := Evict(next, now);
      forall i | 0 < i < |s.order| - |r.order| ensures s.order[i] in s.stamps && now - s.stamps[s.order[i]] > TTL {
        assert s.order[i] == next.order[i - 1];
      }
    } else {
      assert s.order[|s.order| - |s.order|..] == s.order;
    }
  }

  /** Eviction keeps the map and the list in step. */
  lemma {:induction false} EvictPreservesValid(s: CacheState, now: int)
    requires Valid(s)
    ensures Valid(Evict(s, now))
    decreases |s.order|
  {
    if s.order != [] && now - s.stamps[s.order[0]] > TTL {
      EvictStep(s, now);
      EvictPreservesValid(CacheState(s.stamps - {s.order[0]}, s.order[1..]), now);
    }
  }

  /** On an ordered cache, eviction leaves no entry more than TTL old. */
  lemma EvictLeavesNoExpired(s: CacheState, now: int)
    requires Valid(s) && Sorted(s)
    ensures forall k :: k in Evict(s, now).stamps ==> now - Evict(s, now).stamps[k] <= TTL
  {
    EvictKeepsSorted(s, now);
    EvictDropsExpiredPrefix(s, now);
    var r := Evict(s, now);
    forall k | k in r.stamps ensures now - r.stamps[k] <= TTL {
      var j :| 0 <= j < |r.order| && r.order[j] == k;
      if j > 0 {
        assert r.stamps[r.order[0]] <= r.stamps[r.order[j]];
      }
    }
  }

  /** Eviction keeps a cache ordered. */
  lemma EvictKeepsSorted(s: CacheState, now: int)
    requires Valid(s) && Sorted(s)
    ensures Valid(Evict(s, now)) && Sorted(Evict(s, now))
  {
    EvictPreservesValid(s, now);
    EvictDropsExpiredPrefix(s, now);
    SuffixSorted(s, Evict(s, now));
  }

  /** A suffix of an ordered list, with the same timestamps, is ordered. */
  lemma SuffixSorted(s: CacheState, r: CacheState)
    requires Covered(s) && Sorted(s) && Covered(r)
    requires |r.order| <= |s.order| && r.order == s.order[|s.order| - |r.order|..]
    requires forall k :: k in r.stamps ==> k in s.stamps && r.stamps[k] == s.stamps[k]
    ensures Sorted(r)
  {
    var d := |s.order| - |r.order|;
    forall a, b | 0 <= a < b < |r.order| ensures r.stamps[r.order[a]] <= r.stamps[r.order[b]] {
      assert r.order[a] == s.order[d + a] && r.order[b] == s.order[d + b];
    }
  }

  /** One eviction step keeps the cache valid. */
  lemma EvictStep(s: CacheState, now: int)
    requires Valid(s) && s.order != []
    ensures Valid(CacheState(s.stamps - {s.order[0]}, s.order[1..]))
  {
    var head := s.order[0];
    var next := CacheState(s.stamps - {head}, s.order[1..]);
    forall i | 0 <= i < |next.order| ensures next.order[i] in next.stamps {
      assert next.order[i] == s.order[i + 1];
    }
    forall k | k in next.stamps ensures k in next.order {
      var j :| 0 <= j < |s.order| && s.order[j] == k;
      assert j != 0 && next.order[j - 1] == k;
    }
  }

  /** The expiry boundary: a device seen at time 0 is forwarded at 0, held
      back strictly inside TTL, and forwarded again at exactly TTL. */
  lemma TouchExample(k: MacKey, t: int)
    requires 0 < t < TTL
    ensures Touch(CacheState(map[], []), k, 0).0
    ensures !Touch(Touch(CacheState(map[], []), k, 0).1, k, t).0
    ensures Touch(Touch(CacheState(map[], []), k, 0).1, k, TTL).0
  {
    var s := Touch(CacheState(map[], []), k, 0).1;
    assert s.order == [k];
    assert Valid(s);
  }

  // ---------------------------------------------------------------------
  // The cache object

  /** `MacCache`: the hash map of nodes and the doubly-linked recency list
      through them, as a map and a sequence. */
  class Cache {
    var stamps: map<MacKey, int>
    var order: seq<MacKey>

    function State(): CacheState
      reads this
    {
      CacheState(stamps, order)
    }

    constructor ()
      ensures State() == CacheState(map[], []) && Valid(State())
    {
      stamps := map[];
      order := [];
    }

    /** `shouldPrintAndAddToCache`. */
    method ShouldPrintAndAddToCache(k: MacKey, now: int) returns (fwd: bool)
      requires Valid(State())
      modifies this
      ensures (fwd, State()) == Touch(old(State()), k, now)
      ensures Valid(State())
    {
      TouchPreservesValid(State(), k, now);
      if k in stamps {
        if now - stamps[k] < TTL {
          return false;
        }
        stamps := stamps[k := now];
        MoveToTailInPlace(k);
        return true;
      }
      stamps := stamps[k := now];
      AppendToTail(k);
      return true;
    }

    /** `appendToTail`. */
    method AppendToTail(k: MacKey)
      modifies this
      ensures order == old(order) + [k] && stamps == old(stamps)
    {
      order := order + [k];
    }

    /** `moveToTail`: nothing to do when the key already is the tail. */
    method MoveToTailInPlace(k: MacKey)
      requires k in order && Distinct(order)
      modifies this
      ensures order == MoveToTail(old(order), k) && stamps == old(stamps)
    {
      if order[|order| - 1] == k {
        var i := IndexOf(order, k);
        assert i == |order| - 1;
        assert order[..i] + [order[i]] == order;
        return;
      }
      var i := IndexOf(order, k);
      order := order[..i] + order[i + 1..] + [k];
    }

    /** `evictOld`. */
    method EvictOld(now: int)
      requires Valid(State())
      modifies this
      ensures State() == Evict(old(State()), now)
      ensures Valid(State())
    {
      while order != [] && now - stamps[order[0]] > TTL
        invariant Valid(State())
        invariant Evict(State(), now) == Evict(old(State()), now)
        decreases |order|
      {
        var head := order[0];
        EvictStep(State(), now);
        stamps := stamps - {head};
        order := order[1..];
      }
    }
  }
}
