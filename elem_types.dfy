/** The element-type tables the adjacency code consults. Their definitions
    live in the driver's element utilities, which are not part of this
    model, so each table is a function chosen by the caller; only the side
    layout is constrained, because the adjacency code indexes with it. */
module ElemTypes {

  datatype ElemTable = ElemTable(
    /** number of sides of an element type; negative on an unknown type */
    numSides: int -> int,
    /** number of nodes on side `side` (1-based) of an element type */
    sideNodeCount: (int, int) -> int,
    /** positions, within an element's connectivity, of the nodes on side
        `side` (1-based), in the order the side lists them */
    sidePositions: (int, int) -> seq<int>,
    /** the side's node list as the neighbouring element traverses it */
    mirror: (int, seq<int>, int) -> seq<int>,
    /** side of an element (type, connectivity) whose nodes are the given
        list: positive on a match, 0 when there is none, negative on an
        inconsistent query */
    sideId: (int, seq<int>, seq<int>) -> int)

  /** Every side of `etype` lists at least one node, each a position in a
      connectivity of `nnodes` entries. */
  ghost predicate SidesWithin(t: ElemTable, etype: int, nnodes: int)
  {
    forall s :: 1 <= s <= t.numSides(etype) ==> SideWithin(t, etype, s, nnodes)
  }

  ghost predicate SideWithin(t: ElemTable, etype: int, s: int, nnodes: int)
  {
    && 1 <= |t.sidePositions(etype, s)|
    && forall k :: 0 <= k < |t.sidePositions(etype, s)| ==> 0 <= t.sidePositions(etype, s)[k] < nnodes
  }

  /** The nodes on side `side` of an element with connectivity `connect`. */
  function SideNodes(t: ElemTable, etype: int, connect: seq<int>, side: int): (r: seq<int>)
    requires SideWithin(t, etype, side, |connect|)
    ensures 1 <= |r| == |t.sidePositions(etype, side)|
    ensures forall k :: 0 <= k < |r| ==> r[k] in connect
  {
    var pos := t.sidePositions(etype, side);
    seq(|pos|, k requires 0 <= k < |pos| => connect[pos[k]])
  }
}
