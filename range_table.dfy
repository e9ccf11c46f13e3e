/**
 The range-to-node table of the consistent-hashing ring: a sorted sequence of
 key intervals `[lo, hi]` and, in parallel, the id of the node owning each one.
 */
module RangeTable {

  /** A closed interval of keys; the source stores it as `[lo, hi]` in the
      table and as `{lo, hi}` in a node's range list. */
  datatype Interval = Interval(lo: int, hi: int)

  predicate Contains(r: Interval, key: int)
  {
    r.lo <= key <= r.hi
  }

  /** The intervals are non-empty and strictly increasing: every interval ends
      before the next one starts. This is what the binary searches rely on. */
  ghost predicate Increasing(ranges: seq<Interval>)
  {
    && (forall i :: 0 <= i < |ranges| ==> ranges[i].lo <= ranges[i].hi)
    && (forall i, j :: EndsBefore(ranges, i, j))
  }

  /** Interval `i` ends before interval `j` starts, when both exist and `i < j`. */
  ghost predicate EndsBefore(ranges: seq<Interval>, i: int, j: int)
  {
    0 <= i < j < |ranges| ==> ranges[i].hi < ranges[j].lo
  }

  /** Each interval starts one past the end of the one before it. */
  ghost predicate Abutting(ranges: seq<Interval>)
  {
    forall j :: AbutsAt(ranges, j)
  }

  /** Interval `j`, when it has a predecessor, starts one past its end. */
  ghost predicate AbutsAt(ranges: seq<Interval>, j: int)
  {
    0 < j < |ranges| ==> ranges[j].lo == ranges[j - 1].hi + 1
  }

  /** The intervals tile `[1, keyRange]` without gap or overlap: the first
      starts at 1, each next one starts one past the previous end, the last
      ends at `keyRange`. An empty key space has no intervals. */
  ghost predicate Partition(ranges: seq<Interval>, keyRange: int)
  {
    if keyRange < 1 then ranges == []
    else
      && |ranges| > 0
      && ranges[0].lo == 1
      && ranges[|ranges| - 1].hi == keyRange
      && (forall i :: 0 <= i < |ranges| ==> ranges[i].lo <= ranges[i].hi)
      && Abutting(ranges)
  }

  /** The intervals tile `[1, next - 1]`: what the constructor has built so
      far when the next interval is to start at `next`. */
  ghost predicate TilesUpTo(ranges: seq<Interval>, next: int)
  {
    && (ranges == [] <==> next == 1)
    && (ranges != [] ==> ranges[0].lo == 1 && ranges[|ranges| - 1].hi == next - 1)
    && (forall i :: 0 <= i < |ranges| ==> ranges[i].lo <= ranges[i].hi)
    && Abutting(ranges)
  }

  /** Appending `[next, hi]` to a tiling of `[1, next - 1]` tiles `[1, hi]`. */
  lemma TilesUpToAppend(ranges: seq<Interval>, next: int, hi: int)
    requires TilesUpTo(ranges, next) && 1 <= next <= hi
    ensures TilesUpTo(ranges + [Interval(next, hi)], hi + 1)
  {
    var t := ranges + [Interval(next, hi)];
    forall j ensures AbutsAt(t, j) {
      if 0 < j < |ranges| {
        assert AbutsAt(ranges, j);
        assert t[j] == ranges[j] && t[j - 1] == ranges[j - 1];
      }
    }
  }

  /** A tiling of `[1, keyRange]` that has reached `keyRange + 1` is a
      partition; so is the empty one when the key space is empty. */
  lemma TilesUpToPartition(ranges: seq<Interval>, next: int, keyRange: int)
    requires TilesUpTo(ranges, next)
    requires if keyRange < 1 then next == 1 else next == keyRange + 1
    ensures Partition(ranges, keyRange)
  {
  }

  lemma {:induction false} ChainIncreasing(ranges: seq<Interval>, i: nat, j: nat)
    requires forall k :: 0 <= k < |ranges| ==> ranges[k].lo <= ranges[k].hi
    requires Abutting(ranges)
    requires i < j < |ranges|
    ensures ranges[i].hi < ranges[j].lo && ranges[j].lo == ranges[j - 1].hi + 1
    decreases j - i
  {
    assert AbutsAt(ranges, j);
    if i + 1 < j {
      ChainIncreasing(ranges, i, j - 1);
    }
  }

  /** A gap-free tiling is strictly increasing, so the table can be searched. */
  lemma PartitionIncreasing(ranges: seq<Interval>, keyRange: int)
    requires Partition(ranges, keyRange)
    ensures Increasing(ranges)
  {
    if keyRange >= 1 {
      forall i, j ensures EndsBefore(ranges, i, j) {
        if 0 <= i < j < |ranges| {
          ChainIncreasing(ranges, i, j);
        }
      }
    }
  }

  /** Coverage: every key of `[1, keyRange]` lies in some interval of a tiling. */
  lemma {:induction false} PartitionCovers(ranges: seq<Interval>, keyRange: int, key: int)
    requires Partition(ranges, keyRange)
    requires 1 <= key <= keyRange
    ensures exists i :: 0 <= i < |ranges| && Contains(ranges[i], key)
  {
    var k := |ranges| - 1;
    while key < ranges[k].lo
      invariant 0 <= k < |ranges| && key <= ranges[k].hi
      decreases k
    {
      assert k > 0 && AbutsAt(ranges, k);
      k := k - 1;
    }
    assert Contains(ranges[k], key);
  }

  /** In a strictly increasing table at most one interval contains a key. */
  lemma ContainingUnique(ranges: seq<Interval>, key: int, i: int, j: int)
    requires Increasing(ranges)
    requires 0 <= i < |ranges| && 0 <= j < |ranges|
    requires Contains(ranges[i], key) && Contains(ranges[j], key)
    ensures i == j
  {
    assert EndsBefore(ranges, i, j) && EndsBefore(ranges, j, i);
  }

  /** In a strictly increasing table, everything before slot `m` ends before
      it starts and everything after it starts after it ends. */
  lemma SortedAround(ranges: seq<Interval>, m: int)
    requires Increasing(ranges) && 0 <= m < |ranges|
    ensures forall i :: 0 <= i < m ==> ranges[i].hi < ranges[m].lo
    ensures forall i :: m < i < |ranges| ==> ranges[m].hi < ranges[i].lo
  {
    forall i | 0 <= i < m ensures ranges[i].hi < ranges[m].lo {
      assert EndsBefore(ranges, i, m);
    }
    forall i | m < i < |ranges| ensures ranges[m].hi < ranges[i].lo {
      assert EndsBefore(ranges, m, i);
    }
  }

  /** The owners after pointing interval `r` at `x`: only a slot holding
      exactly `r` changes. */
  function Reassigned(ranges: seq<Interval>, owners: seq<int>, r: Interval, x: int): (o: seq<int>)
    requires |owners| == |ranges|
  {
    seq(|owners|, i requires 0 <= i < |owners| => if ranges[i] == r then x else owners[i])
  }

  /** A reassignment of an interval the table does not hold leaves every owner alone. */
  lemma ReassignedAbsent(ranges: seq<Interval>, owners: seq<int>, r: Interval, x: int)
    requires |owners| == |ranges| && r !in ranges
    ensures Reassigned(ranges, owners, r, x) == owners
  {
  }

  /** The owners after every entry `from` is rewritten to `to`. */
  function Renamed(owners: seq<int>, from: int, to: int): (o: seq<int>)
  {
    seq(|owners|, i requires 0 <= i < |owners| => if owners[i] == from then to else owners[i])
  }

  class RangeToNodeMap {
    /** `ranges[i]` is owned by the node whose id is `owners[i]`. */
    var ranges: seq<Interval>
    var owners: seq<int>

    ghost predicate Valid()
      reads this
    {
      |owners| == |ranges| && Increasing(ranges)
    }

    constructor ()
      ensures Valid() && ranges == [] && owners == []
    {
      ranges := [];
      owners := [];
    }

    /** Point lookup by binary search: the owner of the interval containing
        `key`, or -1 when no interval contains it. The search runs over
        `[0, length - 1]`; see `GetNodeAsWritten` for the bound the source uses. */
    method GetNode(key: int) returns (owner: int)
      requires Valid()
      ensures forall i :: 0 <= i < |ranges| && Contains(ranges[i], key) ==> owner == owners[i]
      ensures (forall i :: 0 <= i < |ranges| ==> !Contains(ranges[i], key)) ==> owner == -1
    {
      var lop, hip := 0, |ranges| - 1;
      while lop <= hip
        invariant 0 <= lop <= hip + 1 <= |ranges|
        invariant forall i :: 0 <= i < lop ==> ranges[i].hi < key
        invariant forall i :: hip < i < |ranges| ==> key < ranges[i].lo
      {
        var mid := (lop + hip) / 2;
        SortedAround(ranges, mid);
        if ranges[mid].lo <= key && key <= ranges[mid].hi {
          forall i | 0 <= i < |ranges| && Contains(ranges[i], key) ensures i == mid {
            ContainingUnique(ranges, key, i, mid);
          }
          return owners[mid];
        } else if key < ranges[mid].lo {
          hip := mid - 1;
        } else {
          lop := mid + 1;
        }
      }
      return -1;
    }

    /** Binary search by interval identity, then overwrite that one owner.
        `found` is the source's "no -1 returned". The intervals never change. */
    method ReassignRange(lo: int, hi: int, newNodeId: int) returns (found: bool)
      requires Valid()
      modifies this`owners
      ensures Valid()
      ensures found <==> Interval(lo, hi) in ranges
      ensures owners == Reassigned(ranges, old(owners), Interval(lo, hi), newNodeId)
    {
      var target := Interval(lo, hi);
      var lop, hip := 0, |ranges| - 1;
      while lop <= hip
        invariant 0 <= lop <= hip + 1 <= |ranges|
        invariant forall i :: 0 <= i < lop ==> ranges[i] != target
        invariant forall i :: hip < i < |ranges| ==> ranges[i] != target
        invariant owners == old(owners)
      {
        var mid := (lop + hip) / 2;
        SortedAround(ranges, mid);
        if ranges[mid].lo == lo && ranges[mid].hi == hi {
          owners := owners[mid := newNodeId];
          assert forall i :: 0 <= i < |ranges| && i != mid ==> ranges[i] != target by {
            forall i | 0 <= i < |ranges| && i != mid ensures ranges[i] != target {
              assert i < mid ==> ranges[i].hi < ranges[mid].lo;
              assert mid < i ==> ranges[mid].hi < ranges[i].lo;
            }
          }
          return true;
        } else if ranges[mid].lo < lo && ranges[mid].hi < hi {
          lop := mid + 1;
        } else {
          hip := mid - 1;
        }
      }
      ReassignedAbsent(ranges, owners, target, newNodeId);
      return false;
    }

    /** Rewrites every owner `from` to `to`. The source has no such operation:
        it is the relabelling `removeNode` needs after a node was renumbered. */
    method Relabel(from: int, to: int)
      requires Valid()
      modifies this`owners
      ensures Valid()
      ensures owners == Renamed(old(owners), from, to)
    {
      var i := 0;
      while i < |owners|
        invariant 0 <= i <= |owners| == |old(owners)|
        invariant forall k :: 0 <= k < i ==> owners[k] == (if old(owners)[k] == from then to else old(owners)[k])
        invariant forall k :: i <= k < |owners| ==> owners[k] == old(owners)[k]
      {
        if owners[i] == from {
          owners := owners[i := to];
        }
        i := i + 1;
      }
    }
  }

  /** The outcome of one binary-search probe sequence as the source writes it:
      a hit at an index, a miss (-1 returned), or a read of `ranges[length]`,
      which is undefined in the source and makes `undefined[0]` throw. */
  datatype Probe = Hit(index: nat) | Miss | OutOfBounds

  /** `getNode`'s search exactly as written, started with `hip = length`. */
  function GetNodeSearch(ranges: seq<Interval>, key: int, lop: int, hip: int): Probe
    requires 0 <= lop
    decreases hip - lop + 1
  {
    if lop > hip then Miss
    else
      var mid := (lop + hip) / 2;
      if mid >= |ranges| then OutOfBounds
      else if ranges[mid].lo <= key && key <= ranges[mid].hi then Hit(mid)
      else if key < ranges[mid].lo then GetNodeSearch(ranges, key, lop, mid - 1)
      else GetNodeSearch(ranges, key, mid + 1, hip)
  }

  function GetNodeAsWritten(ranges: seq<Interval>, key: int): Probe
  {
    GetNodeSearch(ranges, key, 0, |ranges|)
  }

  lemma {:induction false} GetNodeSearchOverruns(ranges: seq<Interval>, key: int, lop: nat)
    requires forall i :: 0 <= i < |ranges| ==> ranges[i].lo <= ranges[i].hi < key
    requires lop <= |ranges|
    ensures GetNodeSearch(ranges, key, lop, |ranges|) == OutOfBounds
    decreases |ranges| - lop
  {
    var mid := (lop + |ranges|) / 2;
    if mid < |ranges| {
      GetNodeSearchOverruns(ranges, key, mid + 1);
    }
  }

  /** With `hip = length`, a key above every interval (any key at all on an
      empty table) drives the search to `ranges[length]` instead of -1. */
  lemma GetNodeAsWrittenOverruns(ranges: seq<Interval>, key: int)
    requires forall i :: 0 <= i < |ranges| ==> ranges[i].lo <= ranges[i].hi < key
    ensures GetNodeAsWritten(ranges, key) == OutOfBounds
  {
    GetNodeSearchOverruns(ranges, key, 0);
  }

  /** `reassignRange`'s search exactly as written, started with `hip = length`. */
  function ReassignSearch(ranges: seq<Interval>, lo: int, hi: int, lop: int, hip: int): Probe
    requires 0 <= lop
    decreases hip - lop + 1
  {
    if lop > hip then Miss
    else
      var mid := (lop + hip) / 2;
      if mid >= |ranges| then OutOfBounds
      else if ranges[mid].lo == lo && ranges[mid].hi == hi then Hit(mid)
      else if ranges[mid].lo < lo && ranges[mid].hi < hi then ReassignSearch(ranges, lo, hi, mid + 1, hip)
      else ReassignSearch(ranges, lo, hi, lop, mid - 1)
  }

  function ReassignRangeAsWritten(ranges: seq<Interval>, lo: int, hi: int): Probe
  {
    ReassignSearch(ranges, lo, hi, 0, |ranges|)
  }

  lemma {:induction false} ReassignSearchOverruns(ranges: seq<Interval>, lo: int, hi: int, lop: nat)
    requires forall i :: 0 <= i < |ranges| ==> ranges[i].lo < lo && ranges[i].hi < hi
    requires lop <= |ranges|
    ensures ReassignSearch(ranges, lo, hi, lop, |ranges|) == OutOfBounds
    decreases |ranges| - lop
  {
    var mid := (lop + |ranges|) / 2;
    if mid < |ranges| {
      ReassignSearchOverruns(ranges, lo, hi, mid + 1);
    }
  }

  /** With `hip = length`, asking for an interval that lies beyond the last one
      reads `ranges[length]` instead of returning -1. */
  lemma ReassignRangeAsWrittenOverruns(ranges: seq<Interval>, lo: int, hi: int)
    requires forall i :: 0 <= i < |ranges| ==> ranges[i].lo < lo && ranges[i].hi < hi
    ensures ReassignRangeAsWritten(ranges, lo, hi) == OutOfBounds
  {
    ReassignSearchOverruns(ranges, lo, hi, 0);
  }
}
