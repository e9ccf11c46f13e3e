/**
 The range-partitioned consistent-hashing ring: the key space `[1, keyRange]`
 is cut into intervals at construction, each interval is owned by one node,
 and nodes join and leave by moving whole intervals.

 The ring keeps two views of ownership in step: the table (`table.owners[i]`
 is the id of the owner of `table.ranges[i]`) and the nodes' own range lists.
 `Tracks` states that agreement; `OwnerIffListed` and `SingleOwner` are what
 it buys.
 */
module Ring {
  import opened Optional
  import opened RangeTable
  import opened NodeIds

  /** The multiset of all intervals listed by `nodes`. */
  ghost function Pool(nodes: seq<Node>): multiset<Interval>
  {
    PoolUpTo(nodes, |nodes|)
  }

  /** The multiset of the intervals listed by the first `n` nodes. */
  ghost function PoolUpTo(nodes: seq<Node>, n: nat): multiset<Interval>
    requires n <= |nodes|
  {
    if n == 0 then multiset{} else PoolUpTo(nodes, n - 1) + multiset(nodes[n - 1].ranges)
  }

  /** The pool of a prefix only depends on that prefix. */
  lemma {:induction false} PoolUpToSame(a: seq<Node>, b: seq<Node>, n: nat)
    requires n <= |a| && n <= |b|
    requires forall i :: 0 <= i < n ==> a[i] == b[i]
    ensures PoolUpTo(a, n) == PoolUpTo(b, n)
  {
    if n > 0 {
      PoolUpToSame(a, b, n - 1);
      assert a[n - 1] == b[n - 1];
    }
  }

  lemma PoolAppend(nodes: seq<Node>, x: Node)
    ensures Pool(nodes + [x]) == Pool(nodes) + multiset(x.ranges)
  {
    var t := nodes + [x];
    assert t[|nodes|] == x;
    PoolUpToSame(t, nodes, |nodes|);
  }

  lemma {:induction false} PoolUpToUpdate(nodes: seq<Node>, k: nat, x: Node, n: nat)
    requires k < n <= |nodes|
    ensures PoolUpTo(nodes[k := x], n) + multiset(nodes[k].ranges) == PoolUpTo(nodes, n) + multiset(x.ranges)
  {
    var t := nodes[k := x];
    if n == k + 1 {
      PoolUpToSame(t, nodes, k);
      assert t[k] == x;
    } else {
      PoolUpToUpdate(nodes, k, x, n - 1);
      assert t[n - 1] == nodes[n - 1];
      var last, gone, added := multiset(nodes[n - 1].ranges), multiset(nodes[k].ranges), multiset(x.ranges);
      assert PoolUpTo(t, n) == PoolUpTo(t, n - 1) + last;
      assert PoolUpTo(nodes, n) == PoolUpTo(nodes, n - 1) + last;
      AddBoth(PoolUpTo(t, n - 1), PoolUpTo(nodes, n - 1), gone, added, last);
    }
  }

  /** Adding the same multiset to both sides keeps an equation. */
  lemma AddBoth(a: multiset<Interval>, b: multiset<Interval>, c: multiset<Interval>, d: multiset<Interval>,
                e: multiset<Interval>)
    requires a + c == b + d
    ensures a + e + c == b + e + d
  {
    forall v ensures (a + e + c)[v] == (b + e + d)[v] {
      assert (a + c)[v] == (b + d)[v];
    }
  }

  /** Replacing one node changes the pool by exactly the two range lists. */
  lemma PoolUpdate(nodes: seq<Node>, k: nat, x: Node)
    requires k < |nodes|
    ensures Pool(nodes[k := x]) + multiset(nodes[k].ranges) == Pool(nodes) + multiset(x.ranges)
  {
    PoolUpToUpdate(nodes, k, x, |nodes|);
  }

  lemma Cancel(a: multiset<Interval>, b: multiset<Interval>, c: multiset<Interval>)
    requires a + c == b + c
    ensures a == b
  {
    forall e ensures a[e] == b[e] {
      assert (a + c)[e] == (b + c)[e];
    }
  }

  lemma {:induction false} PoolUpToLists(nodes: seq<Node>, k: nat, n: nat)
    requires k < n <= |nodes|
    ensures multiset(nodes[k].ranges) <= PoolUpTo(nodes, n)
  {
    if k < n - 1 {
      PoolUpToLists(nodes, k, n - 1);
    }
  }

  /** Every node's list is part of the pool. */
  lemma PoolLists(nodes: seq<Node>, k: nat)
    requires k < |nodes|
    ensures multiset(nodes[k].ranges) <= Pool(nodes)
  {
    PoolUpToLists(nodes, k, |nodes|);
  }

  /** An interval listed by two different nodes is counted twice in the pool. */
  lemma PoolTwice(nodes: seq<Node>, x: nat, y: nat, r: Interval)
    requires x < |nodes| && y < |nodes| && x != y
    requires r in nodes[x].ranges && r in nodes[y].ranges
    ensures Pool(nodes)[r] >= 2
  {
    var t := nodes[x := Node(nodes[x].id, [])];
    PoolUpdate(nodes, x, Node(nodes[x].id, []));
    assert Pool(nodes) == Pool(t) + multiset(nodes[x].ranges);
    assert t[y] == nodes[y];
    PoolLists(t, y);
    assert multiset(nodes[y].ranges)[r] >= 1;
    assert Pool(t)[r] >= 1;
    assert multiset(nodes[x].ranges)[r] >= 1;
  }

  /** In a strictly increasing table each interval occurs once. */
  lemma OccursOnce(ranges: seq<Interval>, i: nat)
    requires Increasing(ranges) && i < |ranges|
    ensures multiset(ranges)[ranges[i]] == 1
  {
    var r := ranges[i];
    SortedAround(ranges, i);
    assert ranges == ranges[..i] + [r] + ranges[i + 1..];
    assert r !in ranges[..i] by {
      forall j | 0 <= j < i ensures ranges[j] != r {
        assert ranges[j].hi < r.lo <= r.hi;
      }
    }
    assert r !in ranges[i + 1..] by {
      forall j | i < j < |ranges| ensures ranges[j] != r {
        assert r.hi < ranges[j].lo;
      }
    }
    assert multiset(ranges) == multiset(ranges[..i]) + multiset{r} + multiset(ranges[i + 1..]);
  }

  /** The node lists agree with the table, except for the intervals in
      `pending` (those of a node that has been taken out of the ring and whose
      intervals are still being handed over):
      - every interval of the table is listed by exactly the nodes' lists and
        `pending` together (as multisets), and
      - each other interval's table owner is a live slot whose list has it. */
  ghost predicate Tracks(ranges: seq<Interval>, owners: seq<int>, nodes: seq<Node>, pending: seq<Interval>)
  {
    && |owners| == |ranges|
    && multiset(ranges) == Pool(nodes) + multiset(pending)
    && (forall i :: 0 <= i < |ranges| && ranges[i] !in pending ==>
          0 <= owners[i] < |nodes| && ranges[i] in nodes[owners[i]].ranges)
  }

  /** The table owner of interval `i` is `x` iff node `x` lists interval `i`. */
  lemma OwnerIffListed(ranges: seq<Interval>, owners: seq<int>, nodes: seq<Node>, i: int, x: int)
    requires Increasing(ranges) && Tracks(ranges, owners, nodes, [])
    requires 0 <= i < |ranges| && 0 <= x < |nodes|
    ensures owners[i] == x <==> ranges[i] in nodes[x].ranges
  {
    if ranges[i] in nodes[x].ranges && owners[i] != x {
      PoolTwice(nodes, x, owners[i], ranges[i]);
      OccursOnce(ranges, i);
      assert false;
    }
  }

  /** An entry owned by another node than `x` is not in `x`'s list. */
  lemma OthersNotListed(ranges: seq<Interval>, owners: seq<int>, nodes: seq<Node>, x: int)
    requires Increasing(ranges) && Tracks(ranges, owners, nodes, []) && 0 <= x < |nodes|
    ensures forall j :: 0 <= j < |owners| && owners[j] != x ==> ranges[j] !in nodes[x].ranges
  {
    forall j | 0 <= j < |owners| && owners[j] != x ensures ranges[j] !in nodes[x].ranges {
      OwnerIffListed(ranges, owners, nodes, j, x);
    }
  }

  /** Single ownership: two node-listed intervals that contain the same key
      are the same interval, listed by the same node. */
  lemma SingleOwner(ranges: seq<Interval>, owners: seq<int>, nodes: seq<Node>, key: int,
                    x: int, y: int, r1: Interval, r2: Interval)
    requires Increasing(ranges) && Tracks(ranges, owners, nodes, [])
    requires 0 <= x < |nodes| && 0 <= y < |nodes|
    requires r1 in nodes[x].ranges && r2 in nodes[y].ranges
    requires Contains(r1, key) && Contains(r2, key)
    ensures x == y && r1 == r2
  {
    PoolLists(nodes, x);
    PoolLists(nodes, y);
    assert r1 in multiset(ranges) && r2 in multiset(ranges);
    var i1 :| 0 <= i1 < |ranges| && ranges[i1] == r1;
    var i2 :| 0 <= i2 < |ranges| && ranges[i2] == r2;
    ContainingUnique(ranges, key, i1, i2);
    OwnerIffListed(ranges, owners, nodes, i1, x);
    OwnerIffListed(ranges, owners, nodes, i1, y);
  }

  /** Every interval of a tiling lies inside `[1, keyRange]`. */
  lemma PartitionWithin(ranges: seq<Interval>, keyRange: int, i: nat)
    requires Partition(ranges, keyRange) && i < |ranges|
    ensures 1 <= ranges[i].lo && ranges[i].hi <= keyRange
  {
    var n := |ranges|;
    if 0 < i {
      ChainIncreasing(ranges, 0, i);
    }
    if i < n - 1 {
      ChainIncreasing(ranges, i, n - 1);
    }
  }

  /** `s` without its element at `j`: JavaScript's `s.splice(j, 1)`. */
  function Spliced<T>(s: seq<T>, j: nat): (r: seq<T>)
    requires j < |s|
    ensures |r| == |s| - 1
    ensures multiset(r) + multiset{s[j]} == multiset(s)
    ensures forall x :: x in s && x != s[j] ==> x in r
  {
    var r := seq(|s| - 1, i requires 0 <= i < |s| - 1 => if i < j then s[i] else s[i + 1]);
    assert r == s[..j] + s[j + 1..];
    assert s == s[..j] + [s[j]] + s[j + 1..];
    r
  }

  /** Appending the new interval `r` to node `k` and to the table keeps them in step. */
  lemma TracksAppend(ranges: seq<Interval>, owners: seq<int>, nodes: seq<Node>, k: nat, r: Interval)
    requires Tracks(ranges, owners, nodes, []) && k < |nodes|
    ensures Tracks(ranges + [r], owners + [k], nodes[k := nodes[k].(ranges := nodes[k].ranges + [r])], [])
  {
    var x := nodes[k].(ranges := nodes[k].ranges + [r]);
    var t := nodes[k := x];
    var had := multiset(nodes[k].ranges);
    PoolUpdate(nodes, k, x);
    assert multiset(x.ranges) == had + multiset{r};
    assert Pool(t) + had == (Pool(nodes) + multiset{r}) + had;
    Cancel(Pool(t), Pool(nodes) + multiset{r}, had);
    assert multiset(ranges + [r]) == multiset(ranges) + multiset{r};
    var rs, os := ranges + [r], owners + [k];
    forall i | 0 <= i < |rs| && rs[i] !in [] ensures 0 <= os[i] < |t| && rs[i] in t[os[i]].ranges {
      if i < |ranges| {
        assert rs[i] == ranges[i] && os[i] == owners[i];
        assert ranges[i] in nodes[owners[i]].ranges;
      }
    }
  }

  /** Handing interval `src[j]` of a detached node to live node `d`. */
  lemma TransferFromDetached(ranges: seq<Interval>, owners: seq<int>, nodes: seq<Node>,
                             src: seq<Interval>, j: nat, d: nat)
    requires Tracks(ranges, owners, nodes, src)
    requires j < |src| && d < |nodes|
    ensures Tracks(ranges, Reassigned(ranges, owners, src[j], d),
                   nodes[d := nodes[d].(ranges := nodes[d].ranges + [src[j]])], Spliced(src, j))
  {
    var r := src[j];
    var x := nodes[d].(ranges := nodes[d].ranges + [r]);
    var t := nodes[d := x];
    var had := multiset(nodes[d].ranges);
    var rest := Spliced(src, j);
    PoolUpdate(nodes, d, x);
    assert multiset(x.ranges) == had + multiset{r};
    assert Pool(t) + had == (Pool(nodes) + multiset{r}) + had;
    Cancel(Pool(t), Pool(nodes) + multiset{r}, had);
    calc {
      Pool(t) + multiset(rest);
      Pool(nodes) + (multiset(rest) + multiset{r});
      Pool(nodes) + multiset(src);
      multiset(ranges);
    }
    var o := Reassigned(ranges, owners, r, d);
    forall i | 0 <= i < |ranges| && ranges[i] !in rest ensures 0 <= o[i] < |t| && ranges[i] in t[o[i]].ranges {
      if ranges[i] != r {
        assert ranges[i] !in src;
        assert ranges[i] in nodes[owners[i]].ranges;
      }
    }
  }

  /** The node array after interval `j` of slot `s` has moved to the end of
      slot `d`'s list. */
  function Moved(nodes: seq<Node>, s: nat, j: nat, d: nat): (t: seq<Node>)
    requires s < |nodes| && d < |nodes| && s != d && j < |nodes[s].ranges|
    ensures |t| == |nodes|
    ensures forall k :: 0 <= k < |t| ==> t[k].id == nodes[k].id
  {
    var r := nodes[s].ranges[j];
    nodes[d := nodes[d].(ranges := nodes[d].ranges + [r])][s := nodes[s].(ranges := Spliced(nodes[s].ranges, j))]
  }

  /** Moving interval `j` of live node `s` to live node `d`. */
  lemma TransferBetweenNodes(ranges: seq<Interval>, owners: seq<int>, nodes: seq<Node>, s: nat, j: nat, d: nat)
    requires Tracks(ranges, owners, nodes, [])
    requires s < |nodes| && d < |nodes| && s != d && j < |nodes[s].ranges|
    ensures Tracks(ranges, Reassigned(ranges, owners, nodes[s].ranges[j], d), Moved(nodes, s, j, d), [])
  {
    var r := nodes[s].ranges[j];
    var xd := nodes[d].(ranges := nodes[d].ranges + [r]);
    var t := nodes[d := xd];
    var rest := nodes[s].(ranges := Spliced(nodes[s].ranges, j));
    var u := t[s := rest];
    var had := multiset(nodes[d].ranges);
    PoolUpdate(nodes, d, xd);
    assert multiset(xd.ranges) == had + multiset{r};
    assert Pool(t) + had == (Pool(nodes) + multiset{r}) + had;
    Cancel(Pool(t), Pool(nodes) + multiset{r}, had);
    PoolUpdate(t, s, rest);
    assert t[s] == nodes[s];
    var left := multiset(rest.ranges);
    assert multiset(nodes[s].ranges) == left + multiset{r};
    assert Pool(u) + (left + multiset{r}) == Pool(nodes) + (left + multiset{r});
    Cancel(Pool(u), Pool(nodes), left + multiset{r});
    var o := Reassigned(ranges, owners, r, d);
    forall i | 0 <= i < |ranges| && ranges[i] !in [] ensures 0 <= o[i] < |u| && ranges[i] in u[o[i]].ranges {
      if ranges[i] != r {
        var w := owners[i];
        assert ranges[i] in nodes[w].ranges;
        if w == s {
          assert ranges[i] in rest.ranges;
        }
      } else {
        assert u[d] == xd;
      }
    }
  }

  /** The node array after `#removeNodeHelper(id)` on dense ids: the last node
      takes slot `id` and id `id`, and the array shrinks by one. */
  function SwapPop(nodes: seq<Node>, id: nat): (r: seq<Node>)
    requires id < |nodes|
    ensures |r| == |nodes| - 1
  {
    var n := |nodes|;
    seq(n - 1, k requires 0 <= k < n - 1 => if k == id then nodes[n - 1].(id := id) else nodes[k])
  }

  /** After taking node `id` out and renumbering the last node, with the
      table relabelled from the old highest id to `id`, everything but the
      removed node's intervals is tracked. */
  lemma RemoveKeepsTracks(ranges: seq<Interval>, owners: seq<int>, nodes: seq<Node>, id: nat)
    requires Tracks(ranges, owners, nodes, []) && id < |nodes|
    ensures Tracks(ranges, Renamed(owners, |nodes| - 1, id),
                   SwapPop(nodes, id), nodes[id].ranges)
  {
    var n := |nodes|;
    var p := SwapPop(nodes, id);
    var o := Renamed(owners, n - 1, id);
    var pending := nodes[id].ranges;
    SwapPopPool(nodes, id);
    assert |o| == |owners|;
    forall i | 0 <= i < |ranges| && ranges[i] !in pending ensures 0 <= o[i] < |p| && ranges[i] in p[o[i]].ranges {
      var w := owners[i];
      assert 0 <= w < n && ranges[i] in nodes[w].ranges;
      assert w != id;
      var v := if w == n - 1 then id else w;
      assert o[i] == v;
      SwapPopSlot(nodes, id, v);
    }
  }

  /** Taking node `id` out by swap-with-last removes exactly its list from the pool. */
  lemma SwapPopPool(nodes: seq<Node>, id: nat)
    requires id < |nodes|
    ensures Pool(SwapPop(nodes, id)) + multiset(nodes[id].ranges) == Pool(nodes)
  {
    var n := |nodes|;
    var t := nodes[..n - 1];
    PoolUpToSame(nodes, t, n - 1);
    assert Pool(nodes) == Pool(t) + multiset(nodes[n - 1].ranges);
    if id < n - 1 {
      var y := nodes[n - 1].(id := id);
      PoolUpdate(t, id, y);
      assert t[id] == nodes[id];
      assert SwapPop(nodes, id) == t[id := y];
    } else {
      assert SwapPop(nodes, id) == t;
    }
  }

  /** Slot `k` after swap-with-last holds the intervals of the old slot `k`,
      or of the old last slot when `k` is the freed one. */
  lemma SwapPopSlot(nodes: seq<Node>, id: nat, k: nat)
    requires id < |nodes| && k < |nodes| - 1
    ensures SwapPop(nodes, id)[k].ranges == nodes[if k == id then |nodes| - 1 else k].ranges
  {
  }

  /** How often `x` occurs among the first `n` elements of `s`. */
  function Count(s: seq<int>, n: nat, x: int): nat
    requires n <= |s|
  {
    if n == 0 then 0 else Count(s, n - 1, x) + (if s[n - 1] == x then 1 else 0)
  }

  /** Slots `0..last-1` of `now` have each given up, from their lists in
      `before`, one interval per occurrence of their slot among the first `n`
      entries of `taken`. */
  ghost predicate GaveUp(before: seq<Node>, now: seq<Node>, taken: seq<int>, n: nat, last: nat)
  {
    && |now| == |before| && last < |now| && n <= |taken|
    && forall k :: 0 <= k < last ==>
         && |now[k].ranges| == |before[k].ranges| - Count(taken, n, k)
         && multiset(now[k].ranges) <= multiset(before[k].ranges)
  }

  /** Taking interval `j` from slot `taken[n]` for the last slot records one
      more interval given up by that slot. */
  lemma GaveUpStep(before: seq<Node>, now: seq<Node>, taken: seq<int>, n: nat, last: nat, j: nat)
    requires GaveUp(before, now, taken, n, last) && n < |taken|
    requires 0 <= taken[n] < last && j < |now[taken[n]].ranges|
    ensures GaveUp(before, Moved(now, taken[n], j, last), taken, n + 1, last)
  {
    var s := taken[n];
    var t := Moved(now, s, j, last);
    forall k | 0 <= k < last
      ensures |t[k].ranges| == |before[k].ranges| - Count(taken, n + 1, k)
      ensures multiset(t[k].ranges) <= multiset(before[k].ranges)
    {
      if k == s {
        assert multiset(t[k].ranges) <= multiset(now[k].ranges);
      } else {
        assert t[k] == now[k];
      }
    }
  }

  /** What `addNode`'s loop keeps after `n` passes: ids stay dense, the
      lists track the table, each old slot has lost one interval per
      occurrence among the first `n` entries of `taken`, the new last slot
      holds `n` intervals, and every table entry is its old owner or the new
      node. */
  ghost predicate Sharing(ranges: seq<Interval>, owners0: seq<int>, owners: seq<int>,
                          before: seq<Node>, nodes: seq<Node>, taken: seq<int>, n: nat, last: nat)
  {
    && DenseIds(nodes) && Tracks(ranges, owners, nodes, [])
    && GaveUp(before, nodes, taken, n, last)
    && |nodes[last].ranges| == n
    && |owners0| == |owners|
    && forall j :: 0 <= j < |owners| ==> owners[j] == owners0[j] || owners[j] == last
  }

  /** One pass of `addNode`'s loop keeps `Sharing`. */
  lemma SharingStep(ranges: seq<Interval>, owners0: seq<int>, owners: seq<int>,
                    before: seq<Node>, nodes: seq<Node>, taken: seq<int>, n: nat, last: nat, j: nat)
    requires Sharing(ranges, owners0, owners, before, nodes, taken, n, last) && n < |taken|
    requires 0 <= taken[n] < last && j < |nodes[taken[n]].ranges|
    ensures Sharing(ranges, owners0, Reassigned(ranges, owners, nodes[taken[n]].ranges[j], last),
                    before, Moved(nodes, taken[n], j, last), taken, n + 1, last)
  {
    TransferBetweenNodes(ranges, owners, nodes, taken[n], j, last);
    GaveUpStep(before, nodes, taken, n, last, j);
    var t := Moved(nodes, taken[n], j, last);
    assert t[last].ranges == nodes[last].ranges + [nodes[taken[n]].ranges[j]];
  }

  /** Under `Sharing`, an index below the source's remaining count addresses
      an interval of the table. */
  lemma SharingPick(ranges: seq<Interval>, owners0: seq<int>, owners: seq<int>,
                    before: seq<Node>, nodes: seq<Node>, taken: seq<int>, n: nat, last: nat, j: nat)
    requires Sharing(ranges, owners0, owners, before, nodes, taken, n, last) && n < |taken|
    requires 0 <= taken[n] < last && j < |before[taken[n]].ranges| - Count(taken, n, taken[n])
    ensures j < |nodes[taken[n]].ranges| && nodes[taken[n]].ranges[j] in ranges
  {
    var s := taken[n];
    assert |nodes[s].ranges| == |before[s].ranges| - Count(taken, n, s);
    PoolLists(nodes, s);
    assert nodes[s].ranges[j] in multiset(ranges);
  }

  /** What `removeNode`'s transfer loop keeps, with `rest` the intervals of
      the detached node not yet handed over out of its original list `src`:
      ids stay dense, the lists track the table but for `rest`, only entries
      for intervals of `src` change owner, and each live list keeps its old
      list as a prefix, extended only by intervals of `src`. */
  ghost predicate Handing(ranges: seq<Interval>, owners0: seq<int>, owners: seq<int>,
                          before: seq<Node>, nodes: seq<Node>, rest: seq<Interval>, src: seq<Interval>)
  {
    && DenseIds(nodes) && |nodes| == |before|
    && Tracks(ranges, owners, nodes, rest)
    && (forall r :: r in rest ==> r in src)
    && |owners0| == |owners|
    && (forall j :: 0 <= j < |owners| && ranges[j] !in src ==> owners[j] == owners0[j])
    && (forall k :: 0 <= k < |nodes| ==> before[k].ranges <= nodes[k].ranges)
    && (forall k, m :: 0 <= k < |nodes| && |before[k].ranges| <= m < |nodes[k].ranges| ==>
          nodes[k].ranges[m] in src)
  }

  /** Handing interval `rest[j]` to live slot `d` keeps `Handing`. */
  lemma HandingStep(ranges: seq<Interval>, owners0: seq<int>, owners: seq<int>,
                    before: seq<Node>, nodes: seq<Node>, rest: seq<Interval>, src: seq<Interval>, j: nat, d: nat)
    requires Handing(ranges, owners0, owners, before, nodes, rest, src)
    requires j < |rest| && d < |nodes|
    ensures Handing(ranges, owners0, Reassigned(ranges, owners, rest[j], d),
                    before, nodes[d := nodes[d].(ranges := nodes[d].ranges + [rest[j]])], Spliced(rest, j), src)
  {
    TransferFromDetached(ranges, owners, nodes, rest, j, d);
    var t := nodes[d := nodes[d].(ranges := nodes[d].ranges + [rest[j]])];
    forall k, m | 0 <= k < |t| && |before[k].ranges| <= m < |t[k].ranges|
      ensures t[k].ranges[m] in src
    {
      if k == d && m == |nodes[d].ranges| {
        assert t[k].ranges[m] == rest[j];
      } else if k == d {
        assert t[k].ranges[m] == nodes[k].ranges[m];
      }
    }
  }

  /** `min` of two integers, as `Math.min`. */
  function Min(a: int, b: int): (m: int)
    ensures m <= a && m <= b && (m == a || m == b)
  {
    if a <= b then a else b
  }

  /** The constructor's first loop: `numNodes` nodes with ids `0..numNodes-1`
      and no intervals, each registered at its own slot. */
  method EmptyNodes(numNodes: nat) returns (ns: seq<Node>, ids: map<int, int>)
    ensures |ns| == numNodes && DenseIds(ns) && IdentityMap(ids, numNodes)
    ensures forall k :: 0 <= k < |ns| ==> ns[k].ranges == []
    ensures Pool(ns) == multiset{}
  {
    ns, ids := [], map[];
    var i := 0;
    while i < numNodes
      invariant 0 <= i <= numNodes && |ns| == i
      invariant DenseIds(ns) && IdentityMap(ids, i)
      invariant forall k :: 0 <= k < |ns| ==> ns[k].ranges == []
      invariant Pool(ns) == multiset{}
    {
      PoolAppend(ns, Node(i, []));
      IdentityMapExtend(ids, i);
      ns := ns + [Node(i, [])];
      ids := ids[i := i];
      i := i + 1;
    }
  }

  /** The intervals the corrected construction loop cuts from `first` on,
      pass `p` onwards: `[first, min(keyRange, first + step(p))]` while
      `first <= keyRange`. */
  function Cut(first: int, keyRange: int, step: nat -> nat, p: nat): seq<Interval>
    decreases keyRange - first + 1
  {
    if first <= keyRange then
      var hi := Min(keyRange, first + step(p));
      [Interval(first, hi)] + Cut(hi + 1, keyRange, step, p + 1)
    else []
  }

  /** One pass of the corrected loop takes the next interval off `Cut`. */
  /** The state of the constructor's second loop before the pass that cuts
      from `first`: the passes so far cut `rs`, the first part of `whole`, and
      gave each interval to the node picked for it, in the table and in that
      node's list. */
  ghost predicate CutSoFar(keyRange: int, ns: seq<Node>, pick: nat -> nat, step: nat -> nat, whole: seq<Interval>,
                           rs: seq<Interval>, os: seq<int>, built: seq<Node>, first: int, p: nat)
  {
    && 1 <= first && (keyRange >= 1 ==> first <= keyRange + 1) && (keyRange < 1 ==> first == 1)
    && |built| == |ns| && DenseIds(built)
    && Tracks(rs, os, built, [])
    && rs + Cut(first, keyRange, step, p) == whole
    && |os| == p && forall q :: 0 <= q < |os| ==> os[q] == pick(q)
  }

  /** One pass of the loop: the interval `[first, min(keyRange, first + step(p))]`
      goes to node `pick(p)`. */
  lemma CutPass(keyRange: int, ns: seq<Node>, pick: nat -> nat, step: nat -> nat, whole: seq<Interval>,
                rs: seq<Interval>, os: seq<int>, built: seq<Node>, first: int, p: nat)
    requires CutSoFar(keyRange, ns, pick, step, whole, rs, os, built, first, p)
    requires first <= keyRange && forall p :: pick(p) < |ns|
    ensures var hi := Min(keyRange, first + step(p));
      var r, k := Interval(first, hi), pick(p);
      CutSoFar(keyRange, ns, pick, step, whole, rs + [r], os + [k],
               built[k := built[k].(ranges := built[k].ranges + [r])], hi + 1, p + 1)
  {
    var hi := Min(keyRange, first + step(p));
    var r, k := Interval(first, hi), pick(p);
    TracksAppend(rs, os, built, k, r);
    var rest := Cut(hi + 1, keyRange, step, p + 1);
    assert Cut(first, keyRange, step, p) == [r] + rest;
    assert rs + ([r] + rest) == (rs + [r]) + rest;
    var t := os + [k];
    assert forall q :: 0 <= q < |os| ==> t[q] == os[q];
  }

  /** The constructor's second loop: cuts `[1, keyRange]` into intervals
      `[first, min(keyRange, first + step(p))]` and gives the `p`-th one to
      node `pick(p)`, in the table and in that node's list. The loop runs
      while `first <= keyRange`; see `BuildAsWritten` for the source's guard. */
  method CutKeySpace(keyRange: int, ns: seq<Node>, pick: nat -> nat, step: nat -> nat)
    returns (rs: seq<Interval>, os: seq<int>, built: seq<Node>)
    requires DenseIds(ns) && Tracks([], [], ns, [])
    requires keyRange >= 1 ==> forall p :: pick(p) < |ns|
    ensures Partition(rs, keyRange) && rs == Cut(1, keyRange, step, 0)
    ensures |built| == |ns| && DenseIds(built) && Tracks(rs, os, built, [])
    ensures |os| == |rs| && forall q :: 0 <= q < |os| ==> os[q] == pick(q)
  {
    rs, os, built := [], [], ns;
    var first, last := 1, 1;
    var p: nat := 0;
    ghost var whole := Cut(1, keyRange, step, 0);
    assert [] + whole == whole;
    while first <= keyRange
      invariant CutSoFar(keyRange, ns, pick, step, whole, rs, os, built, first, p)
      decreases keyRange - first
    {
      var owner := pick(p);
      last := Min(keyRange, first + step(p));
      var r := Interval(first, last);
      CutPass(keyRange, ns, pick, step, whole, rs, os, built, first, p);
      built := built[owner := built[owner].(ranges := built[owner].ranges + [r])];
      first := last + 1;
      rs := rs + [r];
      assert built[owner].id == owner;
      os := os + [built[owner].id];
      p := p + 1;
    }
    assert rs + [] == rs;
    CutPartition(keyRange, step);
  }

  class ConsistentHashing {
    const keyRange: int
    const table: RangeToNodeMap
    const idManager: IDManager
    var nodes: seq<Node>
    const numRanges: int

    /** The ring invariant: the intervals tile `[1, keyRange]`, `numRanges`
        counts them, ids are dense (slot `k` holds id `k`, `idToIndex` is the
        identity on `0..n-1`), and the table and the node lists agree. */
    ghost predicate Valid()
      reads this, table, idManager
    {
      && Partition(table.ranges, keyRange)
      && numRanges == |table.ranges|
      && DenseIds(nodes)
      && IdentityMap(idManager.idToIndex, |nodes|)
      && Tracks(table.ranges, table.owners, nodes, [])
    }

    /** Builds `numNodes` nodes and cuts the key space into intervals. On pass
        `p`, `pick(p)` stands for `#randomNode()` and `step(p)` for the random
        length formula, so each interval is `[first, min(keyRange, first + step(p))]`.
        The loop runs while `first <= keyRange`; see `BuildAsWritten` for the
        guard the source uses. */
    constructor (numNodes: nat, keyRange: int, pick: nat -> nat, step: nat -> nat)
      requires keyRange >= 1 ==> forall p :: pick(p) < numNodes
      ensures Valid()
      ensures this.keyRange == keyRange && |nodes| == numNodes
      ensures table.ranges == Cut(1, keyRange, step, 0)
      ensures forall q :: 0 <= q < |table.owners| ==> table.owners[q] == pick(q)
    {
      this.keyRange := keyRange;
      var ns, ids := EmptyNodes(numNodes);
      var rs, os, built := CutKeySpace(keyRange, ns, pick, step);
      var t := new RangeToNodeMap();
      t.ranges, t.owners := rs, os;
      table := t;
      var m := new IDManager();
      m.idToIndex := ids;
      idManager := m;
      nodes := built;
      numRanges := |rs|;
    }

    /** The node record responsible for `key` (`getNodeForKey`), or `None`
        (the source's -1) for a key outside the key space. */
    method GetNodeForKey(key: int) returns (node: Option<Node>)
      requires Valid()
      ensures node.None? <==> !(1 <= key <= keyRange)
      ensures forall i :: 0 <= i < |table.ranges| && Contains(table.ranges[i], key) ==>
                0 <= table.owners[i] < |nodes| && node == Some(nodes[table.owners[i]])
      ensures node.Some? ==> node.value in nodes && exists r :: r in node.value.ranges && Contains(r, key)
    {
      PartitionIncreasing(table.ranges, keyRange);
      var id := table.GetNode(key);
      if 1 <= key <= keyRange {
        PartitionCovers(table.ranges, keyRange, key);
      } else {
        forall i | 0 <= i < |table.ranges| ensures !Contains(table.ranges[i], key) {
          PartitionWithin(table.ranges, keyRange, i);
        }
      }
      if id == -1 {
        return None;
      }
      node := Some(nodes[idManager.idToIndex[id]]);
    }

    /** `#transferRange`: the interval at `rangeIndex` of `source` (standing
        for the random index) leaves `source`, is appended to the node at slot
        `dest`, and the table points it at that node's id. */
    method TransferRange(source: Node, rangeIndex: nat, dest: nat) returns (rest: Node)
      requires table.Valid()
      requires rangeIndex < |source.ranges| && dest < |nodes|
      requires source.ranges[rangeIndex] in table.ranges
      modifies this`nodes, table`owners
      ensures table.Valid() && table.ranges == old(table.ranges)
      ensures var r := source.ranges[rangeIndex];
        && rest == source.(ranges := Spliced(source.ranges, rangeIndex))
        && nodes == old(nodes)[dest := old(nodes)[dest].(ranges := old(nodes)[dest].ranges + [r])]
        && table.owners == Reassigned(table.ranges, old(table.owners), r, old(nodes)[dest].id)
    {
      var range := source.ranges[rangeIndex];
      rest := source.(ranges := Spliced(source.ranges, rangeIndex));
      nodes := nodes[dest := nodes[dest].(ranges := nodes[dest].ranges + [range])];
      var found := table.ReassignRange(range.lo, range.hi, nodes[dest].id);
    }

    /** `#removeNodeHelper`: frees id `id` through the id manager and moves the
        last node into the freed slot. The returned record keeps the removed
        node's intervals and now carries the old highest id. */
    method RemoveNodeHelper(id: int) returns (removed: Node)
      requires Valid()
      requires 0 <= id < |nodes|
      modifies this`nodes, idManager
      ensures removed == old(nodes)[id].(id := old(|nodes|) - 1)
      ensures nodes == SwapPop(old(nodes), id)
      ensures DenseIds(nodes) && IdentityMap(idManager.idToIndex, |nodes|)
    {
      var i := idManager.idToIndex[id];
      nodes := idManager.RemoveId(id, i, nodes);
      var remove := nodes[i];
      if i == |nodes| - 1 {
        removed := nodes[|nodes| - 1];
        nodes := nodes[..|nodes| - 1];
        return;
      }
      var move := nodes[|nodes| - 1];
      nodes := nodes[..|nodes| - 1];
      nodes := nodes[i := move];
      removed := remove;
    }

    /** The first half of `removeNode`: `#removeNodeHelper(id)` followed by
        relabelling the moved node's table entries from the old highest id to
        `id`. The returned node still lists the intervals that have yet to be
        handed over. */
    method Detach(id: int) returns (node: Node)
      requires Valid()
      requires 0 <= id < |nodes|
      modifies this`nodes, table`owners, idManager
      ensures node.ranges == old(nodes[id].ranges)
      ensures nodes == SwapPop(old(nodes), id) && DenseIds(nodes) && IdentityMap(idManager.idToIndex, |nodes|)
      ensures table.Valid() && table.ranges == old(table.ranges)
      ensures table.owners == Renamed(old(table.owners), old(|nodes|) - 1, id)
      ensures Tracks(table.ranges, table.owners, nodes, node.ranges)
    {
      var hid := |nodes| - 1;
      ghost var rs, os, ns := table.ranges, table.owners, nodes;
      PartitionIncreasing(rs, keyRange);
      RemoveKeepsTracks(rs, os, ns, id);
      ghost var os' := Renamed(os, hid, id);
      assert Tracks(rs, os', SwapPop(ns, id), ns[id].ranges);
      node := RemoveNodeHelper(id);
      if id != hid {
        table.Relabel(hid, id);
      } else {
        assert os' == os;
      }
    }

    /** The transfer loop of `removeNode`: each interval of the detached
        `node` goes to live slot `dests[j]`, taken at index `picks[j]` of what
        is left of the node's list. Only the intervals of `node` change owner,
        and a live node's list only grows, by intervals of `node`. */
    method HandOver(node: Node, dests: seq<nat>, picks: seq<nat>)
      requires table.Valid() && DenseIds(nodes) && Tracks(table.ranges, table.owners, nodes, node.ranges)
      requires |dests| == |picks| == |node.ranges|
      requires forall j :: 0 <= j < |dests| ==> dests[j] < |nodes|
      requires forall j :: 0 <= j < |picks| ==> picks[j] < |node.ranges| - j
      modifies this`nodes, table`owners
      ensures table.Valid() && table.ranges == old(table.ranges)
      ensures Tracks(table.ranges, table.owners, nodes, [])
      ensures |nodes| == old(|nodes|) && DenseIds(nodes)
      ensures forall j :: 0 <= j < |table.owners| && table.ranges[j] !in node.ranges ==>
                table.owners[j] == old(table.owners[j])
      ensures forall k :: 0 <= k < |nodes| ==> old(nodes[k].ranges) <= nodes[k].ranges
      ensures forall k, m :: 0 <= k < |nodes| && |old(nodes[k].ranges)| <= m < |nodes[k].ranges| ==>
                nodes[k].ranges[m] in node.ranges
    {
      var rest := node;
      var i := 0;
      while i < |dests|
        invariant 0 <= i <= |dests| && |rest.ranges| == |dests| - i
        invariant table.ranges == old(table.ranges) && table.Valid()
        invariant Handing(table.ranges, old(table.owners), table.owners, old(nodes), nodes, rest.ranges, node.ranges)
      {
        var dest := dests[i];
        assert rest.ranges[picks[i]] in multiset(table.ranges);
        HandingStep(table.ranges, old(table.owners), table.owners, old(nodes), nodes, rest.ranges, node.ranges, picks[i], dest);
        rest := TransferRange(rest, picks[i], dest);
        i := i + 1;
      }
      assert rest.ranges == [];
    }

    /** `removeNode`: takes node `id` out and hands each of its intervals to a
        surviving node. `dests[j]` stands for the random destination slot and
        `picks[j]` for the random interval index of the `j`-th transfer. After
        the renumbering, the moved node's table entries are relabelled from the
        old highest id to `id` (the source leaves them: see
        `RemoveNodeAsWrittenDangles`). */
    method RemoveNode(id: int, dests: seq<nat>, picks: seq<nat>)
      requires Valid()
      requires 0 <= id < |nodes|
      requires |dests| == |picks| == |nodes[id].ranges|
      requires forall j :: 0 <= j < |dests| ==> dests[j] < |nodes| - 1
      requires forall j :: 0 <= j < |picks| ==> picks[j] < |nodes[id].ranges| - j
      modifies this`nodes, table`owners, idManager
      ensures Valid()
      ensures |nodes| == old(|nodes|) - 1
      ensures table.ranges == old(table.ranges)
      ensures forall i :: 0 <= i < |table.owners| && old(table.owners[i]) != id ==>
                table.owners[i] == (if old(table.owners[i]) == old(|nodes|) - 1 then id else old(table.owners[i]))
      ensures var kept := old(SwapPop(nodes, id));
        forall k :: 0 <= k < |nodes| ==> kept[k].ranges <= nodes[k].ranges
      ensures var kept := old(SwapPop(nodes, id));
        forall k, m :: 0 <= k < |nodes| && |kept[k].ranges| <= m < |nodes[k].ranges| ==>
          nodes[k].ranges[m] in old(nodes[id].ranges)
    {
      ghost var before := nodes;
      ghost var owners0 := table.owners;
      PartitionIncreasing(table.ranges, keyRange);
      OthersNotListed(table.ranges, owners0, before, id);
      var node := Detach(id);
      HandOver(node, dests, picks);
    }

    /** `addNode`: appends a node with the next id, registers it, then moves
        `numRanges / (nodes.length + 1)` intervals to it, with `nodes.length`
        already counting the new node. The `j`-th interval comes from old node
        `sources[j]` (the random node), at index `picks[j]` of that node's list
        as it is at that moment (the random range index). */
    method AddNode(sources: seq<int>, picks: seq<nat>)
      requires Valid()
      requires |sources| == |picks| == numRanges / (|nodes| + 2)
      requires forall j :: 0 <= j < |sources| ==> 0 <= sources[j] < |nodes|
      requires forall j :: 0 <= j < |sources| ==>
                 picks[j] < |nodes[sources[j]].ranges| - Count(sources, j, sources[j])
      modifies this`nodes, table`owners, idManager
      ensures Valid()
      ensures |nodes| == old(|nodes|) + 1 && nodes[old(|nodes|)].id == old(|nodes|)
      ensures |nodes[old(|nodes|)].ranges| == numRanges / (old(|nodes|) + 2)
      ensures table.ranges == old(table.ranges)
      ensures forall i :: 0 <= i < |table.owners| ==>
                table.owners[i] == old(table.owners[i]) || table.owners[i] == old(|nodes|)
      ensures forall k :: 0 <= k < old(|nodes|) ==>
                |nodes[k].ranges| == |old(nodes[k].ranges)| - Count(sources, |sources|, k)
                && multiset(nodes[k].ranges) <= multiset(old(nodes[k].ranges))
    {
      var newnode := Node(|nodes|, []);
      idManager.AddId(nodes);
      IdentityMapExtend(old(idManager.idToIndex), |nodes|);
      PoolAppend(nodes, newnode);
      nodes := nodes + [newnode];
      PartitionIncreasing(table.ranges, keyRange);
      // the source's bound, `numRanges / (nodes.length + 1)` with the new node already pushed
      var share := numRanges / (|nodes| + 1);
      assert share == |sources|;
      TakeShare(sources, picks);
    }

    /** One pass of `addNode`'s loop: `#transferRange` of interval `j` of the
        node at slot `s` to the node at slot `d`. */
    method MoveBetween(s: nat, j: nat, d: nat)
      requires table.Valid()
      requires s < |nodes| && d < |nodes| && s != d && j < |nodes[s].ranges|
      requires nodes[s].ranges[j] in table.ranges
      modifies this`nodes, table`owners
      ensures table.Valid() && table.ranges == old(table.ranges)
      ensures nodes == Moved(old(nodes), s, j, d)
      ensures table.owners == Reassigned(table.ranges, old(table.owners), old(nodes[s].ranges[j]), old(nodes[d].id))
    {
      var rest := TransferRange(nodes[s], j, d);
      nodes := nodes[s := rest];
    }

    /** The transfer loop of `addNode`: the `j`-th interval moves from node
        `sources[j]`, at index `picks[j]` of its list as it is then, to the
        last node. */
    method TakeShare(sources: seq<int>, picks: seq<nat>)
      requires table.Valid() && DenseIds(nodes) && Tracks(table.ranges, table.owners, nodes, [])
      requires |nodes| >= 1 && nodes[|nodes| - 1].ranges == []
      requires |sources| == |picks|
      requires forall j :: 0 <= j < |sources| ==> 0 <= sources[j] < |nodes| - 1
      requires forall j :: 0 <= j < |sources| ==>
                 picks[j] < |nodes[sources[j]].ranges| - Count(sources, j, sources[j])
      modifies this`nodes, table`owners
      ensures table.Valid() && table.ranges == old(table.ranges)
      ensures |nodes| == old(|nodes|)
      ensures Sharing(table.ranges, old(table.owners), table.owners, old(nodes), nodes, sources, |sources|, |nodes| - 1)
    {
      var last := |nodes| - 1;
      ghost var owners0, nodes0 := table.owners, nodes;
      var i := 0;
      while i < |sources|
        invariant 0 <= i <= |sources|
        invariant |nodes| == |nodes0|
        invariant table.ranges == old(table.ranges) && table.Valid()
        invariant Sharing(table.ranges, owners0, table.owners, nodes0, nodes, sources, i, last)
      {
        SharingPick(table.ranges, owners0, table.owners, nodes0, nodes, sources, i, last, picks[i]);
        SharingStep(table.ranges, owners0, table.owners, nodes0, nodes, sources, i, last, picks[i]);
        MoveBetween(sources[i], picks[i], last);
        i := i + 1;
      }
    }
  }

  /** The intervals the constructor creates with the source's guard
      `last < keyRange`, from `first`/`last` on pass `p`. */
  function BuildAsWritten(first: int, last: int, keyRange: int, step: nat -> nat, p: nat): seq<Interval>
    requires first <= last + 1
    decreases keyRange - first + 1
  {
    if last < keyRange then
      var hi := Min(keyRange, first + step(p));
      [Interval(first, hi)] + BuildAsWritten(hi + 1, hi, keyRange, step, p + 1)
    else []
  }

  /** The source's loop, continued from a tiling `acc` of `[1, first - 1]`
      (or from the start with `keyRange >= 2`), completes a tiling of
      `[1, keyRange]`. */
  lemma {:induction false} BuildAsWrittenTiles(acc: seq<Interval>, first: int, last: int, keyRange: int,
                                               step: nat -> nat, p: nat)
    requires TilesUpTo(acc, first)
    requires || (acc == [] && first == 1 && last == 1 && keyRange >= 2)
             || (acc != [] && last == first - 1 && 1 <= last <= keyRange)
    ensures Partition(acc + BuildAsWritten(first, last, keyRange, step, p), keyRange)
    decreases keyRange - first + 1
  {
    if last < keyRange {
      var hi := Min(keyRange, first + step(p));
      TilesUpToAppend(acc, first, hi);
      BuildAsWrittenTiles(acc + [Interval(first, hi)], hi + 1, hi, keyRange, step, p + 1);
      assert acc + BuildAsWritten(first, last, keyRange, step, p)
          == (acc + [Interval(first, hi)]) + BuildAsWritten(hi + 1, hi, keyRange, step, p + 1);
    } else {
      assert acc + [] == acc;
      TilesUpToPartition(acc, first, keyRange);
    }
  }

  /** The guard at line 89 goes wrong only for `keyRange == 1`: from two keys
      on, the source's loop tiles the key space, whatever the lengths. */
  lemma BuildAsWrittenTilesFromTwo(keyRange: int, step: nat -> nat)
    requires keyRange >= 2
    ensures Partition(BuildAsWritten(1, 1, keyRange, step, 0), keyRange)
  {
    BuildAsWrittenTiles([], 1, 1, keyRange, step, 0);
    assert [] + BuildAsWritten(1, 1, keyRange, step, 0) == BuildAsWritten(1, 1, keyRange, step, 0);
  }

  /** With `keyRange == 1` the source's guard is false at once: no interval
      is created and key 1 has no owner. */
  lemma BuildAsWrittenLeavesKeyOne(step: nat -> nat)
    ensures BuildAsWritten(1, 1, 1, step, 0) == []
    ensures !Partition(BuildAsWritten(1, 1, 1, step, 0), 1)
  {
  }

  /** Once past the first pass (`last == first - 1`), the source's guard
      `last < keyRange` and the corrected `first <= keyRange` agree, so both
      loops cut the same intervals. */
  lemma {:induction false} CutAgreesPastStart(first: int, keyRange: int, step: nat -> nat, p: nat)
    ensures Cut(first, keyRange, step, p) == BuildAsWritten(first, first - 1, keyRange, step, p)
    decreases keyRange - first + 1
  {
    if first <= keyRange {
      var hi := Min(keyRange, first + step(p));
      CutAgreesPastStart(hi + 1, keyRange, step, p + 1);
    }
  }

  /** The correction of the guard at line 89 changes only `keyRange == 1`:
      from two keys on, the corrected loop cuts exactly the intervals the
      source's loop cuts, for the same lengths; with one key the source cuts
      none and the corrected loop cuts `[1, 1]`. */
  lemma CutMatchesAsWritten(keyRange: int, step: nat -> nat)
    ensures keyRange >= 2 ==> Cut(1, keyRange, step, 0) == BuildAsWritten(1, 1, keyRange, step, 0)
    ensures keyRange == 1 ==> Cut(1, keyRange, step, 0) == [Interval(1, 1)] && BuildAsWritten(1, 1, keyRange, step, 0) == []
  {
    var hi := Min(keyRange, 1 + step(0));
    CutAgreesPastStart(hi + 1, keyRange, step, 1);
  }

  /** The corrected loop tiles the key space for every key range and every
      choice of lengths, one key included. */
  lemma CutPartition(keyRange: int, step: nat -> nat)
    ensures Partition(Cut(1, keyRange, step, 0), keyRange)
  {
    if keyRange < 1 {
      TilesUpToPartition([], 1, keyRange);
    } else if keyRange == 1 {
      CutMatchesAsWritten(keyRange, step);
      TilesUpToAppend([], 1, 1);
      TilesUpToPartition([Interval(1, 1)], 2, keyRange);
    } else {
      CutMatchesAsWritten(keyRange, step);
      BuildAsWrittenTilesFromTwo(keyRange, step);
    }
  }

  /** The table entries `removeNode` rewrites as written: only those of the
      removed id `rid`, each to its destination in `destOf`. */
  function RemoveNodeOwnersAsWritten(owners: seq<int>, rid: int, destOf: seq<int>): seq<int>
    requires |destOf| == |owners|
  {
    seq(|owners|, i requires 0 <= i < |owners| => if owners[i] == rid then destOf[i] else owners[i])
  }

  /** As written, an interval of the renumbered node (old id `n - 1`) keeps
      owner `n - 1` in the table, an id no live node has once `n - 1` nodes
      remain. */
  lemma RemoveNodeAsWrittenDangles(owners: seq<int>, n: int, rid: int, destOf: seq<int>, i: nat)
    requires |destOf| == |owners| && 0 <= rid < n - 1
    requires i < |owners| && owners[i] == n - 1
    ensures RemoveNodeOwnersAsWritten(owners, rid, destOf)[i] == n - 1
    ensures !(0 <= RemoveNodeOwnersAsWritten(owners, rid, destOf)[i] < n - 1)
  {
  }
}
