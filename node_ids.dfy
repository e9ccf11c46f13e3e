/**
 Node records of the ring and the id manager that keeps node ids dense:
 `idToIndex` maps a node id to the node's slot in the ring's node array.
 */
module NodeIds {
  import opened RangeTable

  /** A ring node: its id and the intervals it is responsible for. The
      per-key value storage of the source is not part of this model. */
  datatype Node = Node(id: int, ranges: seq<Interval>)

  /** Slot `k` of the node array holds the node with id `k`. */
  ghost predicate DenseIds(nodes: seq<Node>)
  {
    forall k :: 0 <= k < |nodes| ==> nodes[k].id == k
  }

  /** `m` is the id-to-slot map of `n` dense nodes: ids `0..n-1`, each at its own slot. */
  ghost predicate IdentityMap(m: map<int, int>, n: int)
  {
    && (forall k :: k in m <==> 0 <= k < n)
    && (forall k :: k in m ==> m[k] == k)
  }

  /** Registering id `n` at slot `n` extends the identity map by one node. */
  lemma IdentityMapExtend(m: map<int, int>, n: nat)
    requires IdentityMap(m, n)
    ensures IdentityMap(m[n := n], n + 1)
  {
    var m' := m[n := n];
    forall k ensures k in m' <==> 0 <= k < n + 1 {
      assert k in m' <==> k in m || k == n;
      assert k in m <==> 0 <= k < n;
    }
    forall k | k in m' ensures m'[k] == k {
      if k != n {
        assert m'[k] == m[k];
      }
    }
  }

  class IDManager {
    var idToIndex: map<int, int>

    constructor ()
      ensures idToIndex == map[]
    {
      idToIndex := map[];
    }

    /** Registers the node about to be appended to `nodes`: its id and its
        slot are both the current length. */
    method AddId(nodes: seq<Node>)
      modifies this
      ensures idToIndex == old(idToIndex)[|nodes| := |nodes|]
    {
      idToIndex := idToIndex[|nodes| := |nodes|];
    }

    /** Frees id `rid`, held by the node at slot `r`. Unless `rid` is already
        the highest id `hid`, the node holding `hid` (at slot `s`) is renumbered
        to `rid` and the removed node to `hid`; then `hid` is dropped from the
        map. The moved node will occupy slot `r`, so `rid` is pointed at `r`
        (the source points it at `s`: see `RemoveIdMapAsWritten`). The
        renumbered array is returned, as the source mutates the node objects. */
    method RemoveId(rid: int, r: nat, nodes: seq<Node>) returns (renumbered: seq<Node>)
      requires r < |nodes|
      requires rid != |nodes| - 1 ==> |nodes| - 1 in idToIndex && 0 <= idToIndex[|nodes| - 1] < |nodes|
      modifies this
      ensures var hid := |nodes| - 1;
        if rid != hid then
          var s := old(idToIndex)[hid];
          && idToIndex == old(idToIndex)[rid := r] - {hid}
          && renumbered == nodes[r := nodes[r].(id := hid)][s := nodes[s].(id := rid)]
        else
          && idToIndex == old(idToIndex) - {hid}
          && renumbered == nodes
    {
      var hid := |nodes| - 1;
      renumbered := nodes;
      if rid != hid {
        var s := idToIndex[hid];
        idToIndex := idToIndex[hid := r];
        idToIndex := idToIndex[rid := r];
        renumbered := renumbered[r := renumbered[r].(id := hid)];
        renumbered := renumbered[s := renumbered[s].(id := rid)];
      }
      idToIndex := idToIndex - {hid};
    }
  }

  /** The id map after `removeId` exactly as written: `rid` is pointed at the
      old slot `s` of the highest-id node. */
  function RemoveIdMapAsWritten(m: map<int, int>, rid: int, r: int, hid: int): map<int, int>
    requires rid != hid ==> hid in m
  {
    (if rid != hid then m[hid := r][rid := m[hid]] else m) - {hid}
  }

  /** On a dense registry of `n` nodes, removing any id but the highest leaves
      that id mapped to slot `n - 1`, which no longer exists once the array has
      shrunk to `n - 1` slots: the entry is stale. */
  lemma RemoveIdAsWrittenStale(m: map<int, int>, n: nat, rid: int)
    requires IdentityMap(m, n)
    requires 0 <= rid < n - 1
    ensures var m' := RemoveIdMapAsWritten(m, rid, rid, n - 1);
      rid in m' && m'[rid] == n - 1 && !(0 <= m'[rid] < n - 1)
  {
  }
}
