/**
 An LFU cache with a recency tie-break (`LFRUCacheD`): a key-to-node map,
 one deque of keys per frequency (most recently touched at the head) and a
 pointer `lowest` to the smallest frequency in use. When the cache is full,
 the tail of bucket `lowest` is evicted.

 The deque is taken to behave as a sequence: `prepend` adds at the head
 (index 0), `pop` removes and returns the tail and `remove(x)` deletes `x`
 wherever it is. Deque nodes are identified by their key, which the
 key-to-node map makes unique.
 */
module Lfru {
  import opened Optional
  import opened Seqs

  /** What a cache node carries besides its key: the value and the frequency. */
  datatype Entry<V> = Entry(value: V, freq: int)

  /** The cache's own state: `map` (key to node), `cache` (frequency to the
      deque of keys with that frequency) and `lowest`. */
  datatype Contents<K, V> = Contents(entries: map<K, Entry<V>>, buckets: map<int, seq<K>>, lowest: int)

  /** Proof bookkeeping: when each stored key was last touched, and the
      current time. */
  datatype Clock<K> = Clock(stamp: map<K, int>, clock: int)

  /** The deque's `remove(x)`: `s` without `x`, in the original order. */
  function Without<K(==,!new)>(s: seq<K>, x: K): (r: seq<K>)
    ensures forall y :: y in r <==> y in s && y != x
    ensures multiset(r) == multiset(s)[x := 0]
    decreases |s|
  {
    if |s| == 0 then []
    else if s[0] == x then
      assert s == [s[0]] + s[1..];
      Without(s[1..], x)
    else
      assert s == [s[0]] + s[1..];
      [s[0]] + Without(s[1..], x)
  }

  /** In `s`, the element at `i` was touched more recently than the one at `j`. */
  ghost predicate Newer<K>(s: seq<K>, stamp: map<K, int>, i: int, j: int)
  {
    0 <= i < j < |s| ==> s[i] in stamp && s[j] in stamp && stamp[s[i]] > stamp[s[j]]
  }

  /** A bucket runs from the most recently touched key at its head to the
      least recently touched at its tail; in particular no key occurs twice. */
  ghost predicate Recent<K>(s: seq<K>, stamp: map<K, int>)
  {
    forall i, j :: Newer(s, stamp, i, j)
  }

  /** Prepending a key touched after every key of a bucket keeps it in
      recency order. */
  lemma PrependRecent<K>(s: seq<K>, stamp: map<K, int>, k: K)
    requires Recent(s, stamp)
    requires forall x :: x in s ==> x in stamp && k in stamp && stamp[x] < stamp[k]
    ensures Recent([k] + s, stamp)
  {
    var t := [k] + s;
    forall i, j ensures Newer(t, stamp, i, j) {
      if 0 <= i < j < |t| {
        assert t[j] == s[j - 1] && s[j - 1] in s;
        if i > 0 {
          assert t[i] == s[i - 1];
          assert Newer(s, stamp, i - 1, j - 1);
        }
      }
    }
  }

  /** Dropping the head of a bucket keeps it in recency order. */
  lemma TailRecent<K>(s: seq<K>, stamp: map<K, int>)
    requires Recent(s, stamp) && |s| > 0
    ensures Recent(s[1..], stamp)
    ensures forall x :: x in s[1..] ==> x in stamp && s[0] in stamp && stamp[x] < stamp[s[0]]
  {
    var t := s[1..];
    forall i, j ensures Newer(t, stamp, i, j) {
      assert Newer(s, stamp, i + 1, j + 1);
    }
    forall x | x in t ensures x in stamp && s[0] in stamp && stamp[x] < stamp[s[0]] {
      var j :| 0 <= j < |t| && t[j] == x;
      assert Newer(s, stamp, 0, j + 1);
    }
  }

  /** Popping the tail of a bucket keeps it in recency order, and the popped
      key no longer occurs. */
  lemma PopRecent<K>(s: seq<K>, stamp: map<K, int>)
    requires Recent(s, stamp) && |s| > 0
    ensures Recent(s[..|s| - 1], stamp)
    ensures s[|s| - 1] !in s[..|s| - 1]
  {
    var n := |s|;
    var t := s[..n - 1];
    forall i, j ensures Newer(t, stamp, i, j) {
      assert Newer(s, stamp, i, j);
    }
    forall i | 0 <= i < n - 1 ensures t[i] != s[n - 1] {
      assert Newer(s, stamp, i, n - 1);
    }
  }

  /** Removing a key from a bucket keeps it in recency order. */
  lemma {:induction false} WithoutRecent<K(!new)>(s: seq<K>, stamp: map<K, int>, x: K)
    requires Recent(s, stamp)
    ensures Recent(Without(s, x), stamp)
    decreases |s|
  {
    if |s| > 0 {
      TailRecent(s, stamp);
      WithoutRecent(s[1..], stamp, x);
      if s[0] != x {
        PrependRecent(Without(s[1..], x), stamp, s[0]);
      }
    } else {
      forall i, j ensures Newer(Without(s, x), stamp, i, j) {
      }
    }
  }

  /** Re-stamping a key that a bucket does not hold leaves the bucket in order. */
  lemma RecentRestamp<K>(s: seq<K>, stamp: map<K, int>, k: K, c: int)
    requires Recent(s, stamp) && k !in s
    ensures Recent(s, stamp[k := c])
  {
    var st := stamp[k := c];
    forall i, j ensures Newer(s, st, i, j) {
      if 0 <= i < j < |s| {
        assert Newer(s, stamp, i, j) && s[i] in s && s[j] in s;
      }
    }
  }

  /** Every stored key sits in the bucket of its frequency, and every bucket
      holds only stored keys of that frequency. */
  ghost predicate Placed<K(!new), V>(entries: map<K, Entry<V>>, buckets: map<int, seq<K>>)
  {
    && (forall k :: k in entries ==> 1 <= entries[k].freq && InBucket(buckets, entries[k].freq, k))
    && (forall f, k :: InBucket(buckets, f, k) ==> k in entries && entries[k].freq == f)
  }

  /** Bucket `f` exists and holds `k`. */
  ghost predicate InBucket<K>(buckets: map<int, seq<K>>, f: int, k: K)
  {
    f in buckets && k in buckets[f]
  }

  /** Every stored key has a stamp older than `clock`, and every bucket is in
      recency order. */
  ghost predicate Stamped<K, V>(entries: map<K, Entry<V>>, buckets: map<int, seq<K>>, stamp: map<K, int>, clock: int)
  {
    && (forall k :: k in entries ==> k in stamp && stamp[k] < clock)
    && (forall f :: f in buckets ==> Recent(buckets[f], stamp))
  }

  /** The cache state without the `lowest` pointer and the capacity bound:
      bucket 1 exists, keys are placed by frequency and buckets are in
      recency order. */
  ghost predicate Core<K(!new), V>(entries: map<K, Entry<V>>, buckets: map<int, seq<K>>, stamp: map<K, int>, clock: int)
  {
    1 in buckets && Placed(entries, buckets) && Stamped(entries, buckets, stamp, clock)
  }

  /** `lowest` is the smallest frequency of a stored key, and its bucket is
      not empty, whenever the cache is not empty. */
  ghost predicate LowestOk<K, V>(entries: map<K, Entry<V>>, buckets: map<int, seq<K>>, lowest: int)
  {
    |entries| > 0 ==>
      && lowest in buckets && |buckets[lowest]| > 0
      && forall k :: k in entries ==> lowest <= entries[k].freq
  }

  /** The cache invariant, on the state's values. */
  ghost predicate Inv<K(!new), V>(cap: nat, entries: map<K, Entry<V>>, buckets: map<int, seq<K>>, lowest: int,
                            stamp: map<K, int>, clock: int)
  {
    && |entries| <= cap
    && Core(entries, buckets, stamp, clock)
    && LowestOk(entries, buckets, lowest)
  }

  /** The buckets after `#updateNode` of key `k` at frequency `f`: `k` leaves
      bucket `f` and is prepended to bucket `f + 1`, which is created if
      missing. */
  function Bumped<K(==,!new)>(buckets: map<int, seq<K>>, f: int, k: K): map<int, seq<K>>
    requires f in buckets
  {
    buckets[f := Without(buckets[f], k)][f + 1 := [k] + (if f + 1 in buckets then buckets[f + 1] else [])]
  }

  /** `lowest` after `#updateNode` of key `k` at frequency `f`: it moves up
      when bucket `f` was the lowest and has just run empty. */
  function Raised<K(==,!new)>(buckets: map<int, seq<K>>, f: int, k: K, lowest: int): int
    requires f in buckets
  {
    if lowest == f && |Without(buckets[f], k)| == 0 then f + 1 else lowest
  }

  /** The key `put` evicts: the tail of bucket `lowest`. */
  function Victim<K>(buckets: map<int, seq<K>>, lowest: int): K
    requires lowest in buckets && |buckets[lowest]| > 0
  {
    buckets[lowest][|buckets[lowest]| - 1]
  }

  /** The buckets after the eviction's `pop` on bucket `lowest`. */
  function Popped<K>(buckets: map<int, seq<K>>, lowest: int): map<int, seq<K>>
    requires lowest in buckets && |buckets[lowest]| > 0
  {
    buckets[lowest := buckets[lowest][..|buckets[lowest]| - 1]]
  }

  /** Each stored key is in exactly one bucket: the one of its frequency. */
  lemma ExactlyOneBucket<K(!new), V>(entries: map<K, Entry<V>>, buckets: map<int, seq<K>>,
                               stamp: map<K, int>, clock: int, k: K, f: int)
    requires Core(entries, buckets, stamp, clock) && k in entries && f in buckets
    ensures k in buckets[f] <==> f == entries[k].freq
  {
    assert InBucket(buckets, entries[k].freq, k);
    assert InBucket(buckets, f, k) <==> k in buckets[f];
  }

  /** An empty bucket is trivially in recency order. */
  lemma EmptyRecent<K>(stamp: map<K, int>)
    ensures Recent([], stamp)
  {
    forall i, j ensures Newer([], stamp, i, j) {
    }
  }

  /** The eviction victim is a key of the smallest frequency, and among the
      keys of that frequency the one touched longest ago. */
  lemma {:induction false} VictimLeastRecent<K(!new), V>(cap: nat, entries: map<K, Entry<V>>, buckets: map<int, seq<K>>,
                                                   lowest: int, stamp: map<K, int>, clock: int)
    requires Inv(cap, entries, buckets, lowest, stamp, clock) && |entries| > 0
    ensures var v := Victim(buckets, lowest);
      && v in entries && entries[v].freq == lowest
      && (forall k :: k in entries ==> entries[v].freq <= entries[k].freq)
      && (forall k :: k in entries && entries[k].freq == lowest ==> stamp[v] <= stamp[k])
  {
    var b := buckets[lowest];
    var v := Victim(buckets, lowest);
    assert v in b;
    assert InBucket(buckets, lowest, v);
    forall k | k in entries && entries[k].freq == lowest ensures stamp[v] <= stamp[k] {
      assert InBucket(buckets, entries[k].freq, k);
      var i :| 0 <= i < |b| && b[i] == k;
      if i < |b| - 1 {
        assert Newer(b, stamp, i, |b| - 1);
      }
    }
  }

  /** `#updateNode` of a stored key (with its value set to `v`) keeps the
      invariant: `c2` and `t2` are the contents and the clock afterwards. */
  lemma BumpKeepsInv<K(!new), V>(cap: nat, c: Contents<K, V>, t: Clock<K>, k: K, v: V,
                           c2: Contents<K, V>, t2: Clock<K>)
    requires Inv(cap, c.entries, c.buckets, c.lowest, t.stamp, t.clock) && k in c.entries
    requires c.entries[k].freq in c.buckets
    requires c2.entries == c.entries[k := Entry(v, c.entries[k].freq + 1)]
    requires c2.buckets == Bumped(c.buckets, c.entries[k].freq, k)
    requires c2.lowest == Raised(c.buckets, c.entries[k].freq, k, c.lowest)
    requires t2.stamp == t.stamp[k := t.clock] && t2.clock == t.clock + 1
    ensures Inv(cap, c2.entries, c2.buckets, c2.lowest, t2.stamp, t2.clock)
  {
    var f := c.entries[k].freq;
    assert |c2.entries| == |c.entries| by {
      assert c2.entries.Keys == c.entries.Keys;
    }
    BumpPlaced(c.entries, c.buckets, k, v);
    BumpStamped(c.entries, c.buckets, t.stamp, t.clock, k, v);
    BumpLowest(c.entries, c.buckets, c.lowest, k, v);
  }

  /** `#updateNode` keeps every key in the bucket of its frequency. */
  lemma BumpPlaced<K(!new), V>(entries: map<K, Entry<V>>, buckets: map<int, seq<K>>, k: K, v: V)
    requires Placed(entries, buckets) && k in entries
    ensures var f := entries[k].freq;
      && f in buckets
      && Placed(entries[k := Entry(v, f + 1)], Bumped(buckets, f, k))
  {
    var f := entries[k].freq;
    assert InBucket(buckets, f, k);
    var e := entries[k := Entry(v, f + 1)];
    var b := Bumped(buckets, f, k);
    forall x | x in e ensures 1 <= e[x].freq && InBucket(b, e[x].freq, x) {
      if x != k {
        assert InBucket(buckets, entries[x].freq, x);
        if entries[x].freq == f {
          assert x in Without(buckets[f], k);
        }
      }
    }
    forall g, x | InBucket(b, g, x) ensures x in e && e[x].freq == g {
      if g == f + 1 {
        if x != k {
          assert f + 1 in buckets && x in buckets[f + 1];
          assert InBucket(buckets, f + 1, x);
        }
      } else if g == f {
        assert x in buckets[f] && x != k;
        assert InBucket(buckets, f, x);
      } else {
        assert InBucket(buckets, g, x);
      }
    }
  }

  /** `#updateNode` keeps every bucket in recency order once `k` is
      re-stamped with the current clock. */
  lemma BumpStamped<K(!new), V>(entries: map<K, Entry<V>>, buckets: map<int, seq<K>>,
                          stamp: map<K, int>, clock: int, k: K, v: V)
    requires Core(entries, buckets, stamp, clock) && k in entries
    ensures var f := entries[k].freq;
      && f in buckets
      && Stamped(entries[k := Entry(v, f + 1)], Bumped(buckets, f, k), stamp[k := clock], clock + 1)
  {
    var f := entries[k].freq;
    assert InBucket(buckets, f, k);
    var b := Bumped(buckets, f, k);
    var st := stamp[k := clock];
    var up := if f + 1 in buckets then buckets[f + 1] else [];
    assert Recent(up, stamp) by {
      if f + 1 !in buckets {
        EmptyRecent(stamp);
      }
    }
    assert k !in up by {
      if f + 1 in buckets {
        assert !InBucket(buckets, f + 1, k);
      }
    }
    forall g | g in b ensures Recent(b[g], st) {
      if g == f + 1 {
        RecentRestamp(up, stamp, k, clock);
        forall x | x in up ensures x in st && k in st && st[x] < st[k] {
          assert InBucket(buckets, f + 1, x);
        }
        PrependRecent(up, st, k);
      } else if g == f {
        WithoutRecent(buckets[f], stamp, k);
        RecentRestamp(Without(buckets[f], k), stamp, k, clock);
      } else {
        assert !InBucket(buckets, g, k);
        RecentRestamp(buckets[g], stamp, k, clock);
      }
    }
  }

  /** `#updateNode` keeps `lowest` at the smallest frequency in use. */
  lemma BumpLowest<K(!new), V>(entries: map<K, Entry<V>>, buckets: map<int, seq<K>>, lowest: int, k: K, v: V)
    requires Placed(entries, buckets) && LowestOk(entries, buckets, lowest) && k in entries
    ensures var f := entries[k].freq;
      && f in buckets
      && LowestOk(entries[k := Entry(v, f + 1)], Bumped(buckets, f, k), Raised(buckets, f, k, lowest))
  {
    var f := entries[k].freq;
    assert InBucket(buckets, f, k);
    var rest := Without(buckets[f], k);
    forall x | x in entries && x != k && entries[x].freq == f ensures x in rest {
      assert InBucket(buckets, entries[x].freq, x);
    }
  }

  /** `#newNode` of an absent key keeps every key in the bucket of its frequency. */
  lemma InsertPlaced<K(!new), V>(entries: map<K, Entry<V>>, buckets: map<int, seq<K>>, k: K, v: V)
    requires Placed(entries, buckets) && 1 in buckets && k !in entries
    ensures Placed(entries[k := Entry(v, 1)], buckets[1 := [k] + buckets[1]])
  {
    var e := entries[k := Entry(v, 1)];
    var b := buckets[1 := [k] + buckets[1]];
    forall x | x in e ensures 1 <= e[x].freq && InBucket(b, e[x].freq, x) {
      if x != k {
        assert InBucket(buckets, entries[x].freq, x);
      }
    }
    forall g, x | InBucket(b, g, x) ensures x in e && e[x].freq == g {
      if x != k {
        assert InBucket(buckets, g, x);
      } else {
        assert g != 1 ==> InBucket(buckets, g, k);
      }
    }
  }

  /** `#newNode` of an absent key, stamped with the current clock, keeps
      every bucket in recency order. */
  lemma InsertStamped<K(!new), V>(entries: map<K, Entry<V>>, buckets: map<int, seq<K>>,
                            stamp: map<K, int>, clock: int, k: K, v: V)
    requires Core(entries, buckets, stamp, clock) && k !in entries
    ensures Stamped(entries[k := Entry(v, 1)], buckets[1 := [k] + buckets[1]], stamp[k := clock], clock + 1)
  {
    var b := buckets[1 := [k] + buckets[1]];
    var st := stamp[k := clock];
    forall g | g in b ensures Recent(b[g], st) {
      assert !InBucket(buckets, g, k);
      RecentRestamp(buckets[g], stamp, k, clock);
      if g == 1 {
        forall x | x in buckets[1] ensures x in st && k in st && st[x] < st[k] {
          assert InBucket(buckets, 1, x);
        }
        PrependRecent(buckets[1], st, k);
      }
    }
  }

  /** `#newNode` of an absent key into a cache with room restores the full
      invariant, with `lowest` at 1. */
  lemma InsertKeepsInv<K(!new), V>(cap: nat, entries: map<K, Entry<V>>, buckets: map<int, seq<K>>,
                             stamp: map<K, int>, clock: int, k: K, v: V)
    requires Core(entries, buckets, stamp, clock) && k !in entries && |entries| < cap
    ensures Inv(cap, entries[k := Entry(v, 1)], buckets[1 := [k] + buckets[1]], 1, stamp[k := clock], clock + 1)
  {
    assert |entries[k := Entry(v, 1)]| == |entries| + 1;
    InsertPlaced(entries, buckets, k, v);
    InsertStamped(entries, buckets, stamp, clock, k, v);
  }

  /** The eviction's `pop` of bucket `lowest` and the deletion of the popped
      key keep every key in the bucket of its frequency. */
  lemma EvictPlaced<K(!new), V>(entries: map<K, Entry<V>>, buckets: map<int, seq<K>>, lowest: int, stamp: map<K, int>)
    requires Placed(entries, buckets) && lowest in buckets && |buckets[lowest]| > 0
    requires Recent(buckets[lowest], stamp)
    ensures var v := Victim(buckets, lowest);
      v in entries && Placed(entries - {v}, Popped(buckets, lowest))
  {
    var v := Victim(buckets, lowest);
    var s := buckets[lowest];
    var t := s[..|s| - 1];
    var b := Popped(buckets, lowest);
    var e := entries - {v};
    assert v in s;
    assert InBucket(buckets, lowest, v);
    PopRecent(s, stamp);
    forall f, x | InBucket(b, f, x) ensures x in e && e[x].freq == f {
      if f == lowest {
        assert x in t && x != v;
        var i :| 0 <= i < |t| && t[i] == x;
        assert s[i] == x;
      }
      assert InBucket(buckets, f, x);
    }
    forall x | x in e ensures 1 <= e[x].freq && InBucket(b, e[x].freq, x) {
      assert InBucket(buckets, entries[x].freq, x);
      if entries[x].freq == lowest {
        assert x == t[IndexOf(s, x)];
      }
    }
  }

  /** The eviction leaves every bucket in recency order. */
  lemma EvictStamped<K(!new), V>(entries: map<K, Entry<V>>, buckets: map<int, seq<K>>, lowest: int,
                           stamp: map<K, int>, clock: int, v: K)
    requires Stamped(entries, buckets, stamp, clock) && lowest in buckets && |buckets[lowest]| > 0
    ensures Stamped(entries - {v}, Popped(buckets, lowest), stamp, clock)
  {
    PopRecent(buckets[lowest], stamp);
  }

  /** The eviction (the `pop` of bucket `lowest` and the deletion of the
      popped key) leaves a consistent cache one key smaller. */
  lemma EvictKeepsCore<K(!new), V>(cap: nat, entries: map<K, Entry<V>>, buckets: map<int, seq<K>>, lowest: int,
                             stamp: map<K, int>, clock: int)
    requires Inv(cap, entries, buckets, lowest, stamp, clock) && |entries| > 0
    ensures var v := Victim(buckets, lowest);
      && v in entries && |entries - {v}| == |entries| - 1
      && Core(entries - {v}, Popped(buckets, lowest), stamp, clock)
  {
    var v := Victim(buckets, lowest);
    EvictPlaced(entries, buckets, lowest, stamp);
    EvictStamped(entries, buckets, lowest, stamp, clock, v);
    assert (entries - {v}).Keys == entries.Keys - {v};
  }

  /** Clock `t` is clock `t0` after touching key `k`: `k` is stamped with
      the current time and the time moves on. */
  ghost predicate Touched<K>(t0: Clock<K>, t: Clock<K>, k: K)
  {
    t.stamp == t0.stamp[k := t0.clock] && t.clock == t0.clock + 1
  }

  /** `v` is a least frequently used key and, among the keys of its
      frequency, the least recently touched one. */
  ghost predicate LeastUsed<K, V>(entries: map<K, Entry<V>>, stamp: map<K, int>, v: K)
  {
    && v in entries && v in stamp
    && forall k :: k in entries ==>
         && entries[v].freq <= entries[k].freq
         && (entries[k].freq == entries[v].freq ==> k in stamp && stamp[v] <= stamp[k])
  }

  class LFRUCacheD<K(==,!new), V> {
    const cap: nat
    /** `map`, `cache` and `lowest`, updated together. */
    var state: Contents<K, V>
    ghost var time: Clock<K>

    ghost predicate Valid()
      reads this
    {
      Inv(cap, state.entries, state.buckets, state.lowest, time.stamp, time.clock)
    }

    /** An empty cache of capacity `cap`, with an empty bucket 1. */
    constructor (cap: nat)
      ensures Valid()
      ensures this.cap == cap && state == Contents(map[], map[1 := []], 0)
    {
      this.cap := cap;
      state := Contents(map[], map[1 := []], 0);
      time := Clock(map[], 0);
      new;
      assert Placed(state.entries, state.buckets);
      EmptyRecent(time.stamp);
    }

    /** `#updateNode`, with the value set to `v` (`put` on a stored key
        overwrites it just before; `get` passes the old value). */
    method UpdateNode(k: K, v: V)
      requires Valid() && k in state.entries
      modifies this
      ensures Valid()
      ensures state.entries == old(state.entries)[k := Entry(v, old(state.entries[k].freq) + 1)]
      ensures state.buckets == old(Bumped(state.buckets, state.entries[k].freq, k))
      ensures state.lowest == old(Raised(state.buckets, state.entries[k].freq, k, state.lowest))
      ensures time.stamp == old(time.stamp)[k := old(time.clock)] && time.clock == old(time.clock) + 1
    {
      var f := state.entries[k].freq;
      assert InBucket(state.buckets, f, k);
      var rest := Without(state.buckets[f], k);
      var next := [k] + (if f + 1 in state.buckets then state.buckets[f + 1] else []);
      var low := if state.lowest == f && |rest| == 0 then f + 1 else state.lowest;
      var c2 := Contents(state.entries[k := Entry(v, f + 1)], state.buckets[f := rest][f + 1 := next], low);
      var t2 := Clock(time.stamp[k := time.clock], time.clock + 1);
      BumpKeepsInv(cap, state, time, k, v, c2, t2);
      state, time := c2, t2;
    }

    /** `#newNode`: stores an absent key with frequency 1 at the head of
        bucket 1, and sets `lowest` to 1. */
    method NewNode(k: K, v: V)
      requires Core(state.entries, state.buckets, time.stamp, time.clock)
      requires k !in state.entries && |state.entries| < cap
      modifies this
      ensures Valid()
      ensures state.entries == old(state.entries)[k := Entry(v, 1)]
      ensures state.buckets == old(state.buckets)[1 := [k] + old(state.buckets)[1]]
      ensures state.lowest == 1
      ensures time.stamp == old(time.stamp)[k := old(time.clock)] && time.clock == old(time.clock) + 1
    {
      InsertKeepsInv(cap, state.entries, state.buckets, time.stamp, time.clock, k, v);
      state := Contents(state.entries[k := Entry(v, 1)], state.buckets[1 := [k] + state.buckets[1]], 1);
      time := Clock(time.stamp[k := time.clock], time.clock + 1);
    }

    /** `get`: `None` (the source's -1) and no change for an absent key;
        otherwise the stored value, with the key's frequency raised by one
        and the key moved to the head of the next bucket. */
    method Get(k: K) returns (r: Option<V>)
      requires Valid()
      modifies this
      ensures Valid()
      ensures k !in old(state.entries) ==> r == None && unchanged(this)
      ensures k in old(state.entries) ==>
        var f := old(state.entries[k].freq);
        && r == Some(old(state.entries[k].value))
        && state.entries == old(state.entries)[k := Entry(old(state.entries[k].value), f + 1)]
        && state.buckets == Bumped(old(state.buckets), f, k)
        && state.lowest == Raised(old(state.buckets), f, k, old(state.lowest))
        && Touched(old(time), time, k)
    {
      if k !in state.entries {
        return None;
      }
      var value := state.entries[k].value;
      UpdateNode(k, value);
      r := Some(value);
    }

    /** `put`: nothing for capacity 0; a stored key gets the new value and
        is bumped as by `get`; an absent key is stored with frequency 1,
        after evicting the tail of bucket `lowest` when the cache is full. */
    method Put(k: K, v: V)
      requires Valid()
      modifies this
      ensures Valid()
      ensures cap == 0 ==> unchanged(this)
      ensures cap > 0 && k in old(state.entries) ==>
        var f := old(state.entries[k].freq);
        && state.entries == old(state.entries)[k := Entry(v, f + 1)]
        && state.buckets == Bumped(old(state.buckets), f, k)
        && state.lowest == Raised(old(state.buckets), f, k, old(state.lowest))
        && Touched(old(time), time, k)
      ensures cap > 0 && k !in old(state.entries) && |old(state.entries)| < cap ==>
        && state.entries == old(state.entries)[k := Entry(v, 1)]
        && state.buckets == old(state.buckets)[1 := [k] + old(state.buckets)[1]]
        && state.lowest == 1
        && Touched(old(time), time, k)
      ensures cap > 0 && k !in old(state.entries) && |old(state.entries)| >= cap ==>
        && old(|state.entries| > 0 && state.lowest in state.buckets && |state.buckets[state.lowest]| > 0)
        && var victim := old(Victim(state.buckets, state.lowest));
           var popped := old(Popped(state.buckets, state.lowest));
           && state.entries == (old(state.entries) - {victim})[k := Entry(v, 1)]
           && state.buckets == popped[1 := [k] + popped[1]]
           && state.lowest == 1
           && Touched(old(time), time, k)
           && old(LeastUsed(state.entries, time.stamp, victim))
    {
      if cap == 0 {
        return;
      }
      if k in state.entries {
        UpdateNode(k, v);
      } else if |state.entries| < cap {
        NewNode(k, v);
      } else {
        VictimLeastRecent(cap, state.entries, state.buckets, state.lowest, time.stamp, time.clock);
        EvictKeepsCore(cap, state.entries, state.buckets, state.lowest, time.stamp, time.clock);
        var victim := Victim(state.buckets, state.lowest);
        assert LeastUsed(state.entries, time.stamp, victim);
        state := state.(entries := state.entries - {victim}, buckets := Popped(state.buckets, state.lowest));
        NewNode(k, v);
      }
    }
  }
}
