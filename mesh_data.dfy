/** The element catalog of the test driver: one record per element slot,
    and the mesh description that owns them. */
module MeshData {

  datatype Option<T> = None | Some(value: T)

  /** The adjacency sentinel: a side with no neighbour. */
  const NoNeighbour: int := -1

  /** One element record. Coordinates are not modelled. `adj`, `adjProc`
      and `edgeWgt` hold one slot per side once adjacency is built;
      `edgeWgt` is `None` while the weight array is not allocated. */
  datatype ElemInfo = ElemInfo(
    border: int,
    globalID: int,
    elemBlk: int,
    cpuWgt: seq<real>,
    memWgt: real,
    connect: seq<int>,
    nadj: int,
    adjLen: int,
    adj: seq<int>,
    adjProc: seq<int>,
    edgeWgt: Option<seq<real>>)

  /** An unused element slot: global ID -1 and no adjacency storage. */
  function UnusedElem(numCpuWgts: nat): (e: ElemInfo)
    ensures e.globalID == -1 && e.adjLen == 0 && e.nadj == 0
    ensures |e.cpuWgt| == numCpuWgts
  {
    ElemInfo(0, -1, -1, seq(numCpuWgts, _ => 0.0), 0.0, [], 0, 0, [], [], None)
  }

  /** The adjacency slots of a record agree with its side count. */
  ghost predicate SlotsWellFormed(e: ElemInfo)
  {
    && 0 <= e.adjLen
    && |e.adj| == e.adjLen
    && |e.adjProc| == e.adjLen
    && (e.adjLen > 0 ==> e.edgeWgt.Some?)
    && (e.edgeWgt.Some? ==> |e.edgeWgt.value| == e.adjLen)
  }

  /** Number of populated (non-sentinel) entries of an adjacency list. */
  function CountFilled(adj: seq<int>): (n: nat)
    ensures n <= |adj|
  {
    if adj == [] then 0
    else CountFilled(adj[..|adj| - 1]) + (if adj[|adj| - 1] != NoNeighbour then 1 else 0)
  }

  /** A list of sentinels has no populated entry. */
  lemma {:induction false} CountFilledNone(n: nat)
    ensures CountFilled(seq(n, _ => NoNeighbour)) == 0
  {
    if n > 0 {
      CountFilledNone(n - 1);
      assert seq(n, _ => NoNeighbour)[..n - 1] == seq(n - 1, _ => NoNeighbour);
    }
  }

  /** Populating an empty entry adds one to the count. */
  lemma {:induction false} CountFilledFill(adj: seq<int>, s: int, x: int)
    requires 0 <= s < |adj| && adj[s] == NoNeighbour && x != NoNeighbour
    ensures CountFilled(adj[s := x]) == CountFilled(adj) + 1
  {
    var a1 := adj[s := x];
    if s < |adj| - 1 {
      CountFilledFill(adj[..|adj| - 1], s, x);
      assert a1[..|a1| - 1] == adj[..|adj| - 1][s := x];
    } else {
      assert a1[..|a1| - 1] == adj[..|adj| - 1];
    }
  }

  /** The conservation invariant: `nadj` counts the populated slots. */
  ghost predicate Conserved(e: ElemInfo)
  {
    SlotsWellFormed(e) && e.nadj == CountFilled(e.adj)
  }

  /** The block index and connectivity of an element: the part of a record
      that adjacency construction reads but never writes. */
  datatype ElemShape = ElemShape(blk: int, connect: seq<int>)

  function Shapes(elems: seq<ElemInfo>): (r: seq<ElemShape>)
    ensures |r| == |elems|
    ensures forall i :: 0 <= i < |elems| ==> r[i] == ElemShape(elems[i].elemBlk, elems[i].connect)
  {
    seq(|elems|, i requires 0 <= i < |elems| => ElemShape(elems[i].elemBlk, elems[i].connect))
  }

  /** The mesh owned by one process. `elements` has room for a few more
      elements than `numElems`; the extra slots are unused records. */
  class Mesh {
    var numDims: int
    var numNodes: int
    var numElems: int
    var ebEtypes: seq<int>
    var ebNnodes: seq<int>
    var ebCnts: seq<int>
    var elements: array<ElemInfo>
    var ecmapId: seq<int>
    var ecmapCnt: seq<int>
    var ecmapElemids: seq<int>
    var ecmapSideids: seq<int>
    var ecmapNeighids: seq<int>

    /** Block metadata as agreed by all processes, and `numElems + 5`
        element slots, each initialised as unused. */
    constructor (numDims: int, numNodes: nat, numElems: nat,
                 ebEtypes: seq<int>, ebNnodes: seq<int>, ebCnts: seq<int>,
                 numCpuWgts: nat)
      ensures this.numDims == numDims && this.numNodes == numNodes && this.numElems == numElems
      ensures this.ebEtypes == ebEtypes && this.ebNnodes == ebNnodes && this.ebCnts == ebCnts
      ensures fresh(elements) && elements.Length == numElems + 5
      ensures forall i :: 0 <= i < elements.Length ==> elements[i] == UnusedElem(numCpuWgts)
      ensures ecmapId == [] && ecmapCnt == [] && ecmapElemids == [] && ecmapSideids == [] && ecmapNeighids == []
    {
      this.numDims := numDims;
      this.numNodes := numNodes;
      this.numElems := numElems;
      this.ebEtypes := ebEtypes;
      this.ebNnodes := ebNnodes;
      this.ebCnts := ebCnts;
      elements := new ElemInfo[numElems + 5](_ => UnusedElem(numCpuWgts));
      ecmapId, ecmapCnt := [], [];
      ecmapElemids, ecmapSideids, ecmapNeighids := [], [], [];
    }

    /** Every local element names a known block, has that block's number
        of nodes, and refers only to local nodes. */
    ghost predicate ConnectValid()
      reads this, elements
    {
      && 0 <= numElems <= elements.Length
      && 0 <= numNodes
      && |ebEtypes| == |ebNnodes|
      && forall e :: 0 <= e < numElems ==> ElemConnectValid(elements[e])
    }

    ghost predicate ElemConnectValid(r: ElemInfo)
      reads this
    {
      && 0 <= r.elemBlk < |ebNnodes|
      && |r.connect| == ebNnodes[r.elemBlk]
      && forall i :: 0 <= i < |r.connect| ==> 0 <= r.connect[i] < numNodes
    }
  }
}
