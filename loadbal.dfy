/** The query callbacks through which the partitioner reads the mesh: the
    element count, an iterator over local elements, per-element edge counts
    and edge lists, and the geometry query's failure check. A query on a
    missing mesh (`null`) fails with `Fatal`. Only the last entry of each
    caller-supplied global and local ID is modelled. */
module LoadBal {
  import opened MeshData

  /** The partitioner's error codes the callbacks set. */
  datatype ErrCode = Ok | Fatal

  /** The last entries of an element's global and local ID. */
  datatype Ids = Ids(globalId: int, localId: int)

  /** Finds the first element slot, among all allocated slots, holding
      `globalId`; when there is none, `idx` keeps the caller's value. */
  method SearchByGlobalId(mesh: Mesh, globalId: int, idxIn: int) returns (found: bool, idx: int)
    ensures found ==> 0 <= idx < mesh.elements.Length && mesh.elements[idx].globalID == globalId
    ensures found ==> forall i :: 0 <= i < idx ==> mesh.elements[i].globalID != globalId
    ensures !found ==> idx == idxIn && forall i :: 0 <= i < mesh.elements.Length ==> mesh.elements[i].globalID != globalId
  {
    found, idx := false, idxIn;
    var i := 0;
    while i < mesh.elements.Length
      invariant 0 <= i <= mesh.elements.Length
      invariant forall k :: 0 <= k < i ==> mesh.elements[k].globalID != globalId
    {
      if mesh.elements[i].globalID == globalId {
        found, idx := true, i;
        break;
      }
      i := i + 1;
    }
  }

  /** The caller names an element the mesh has: by local ID when local IDs
      are in use, otherwise by a global ID some slot holds. */
  ghost predicate Addressed(mesh: Mesh, numLidEntries: int, ids: Ids)
    reads mesh, mesh.elements
  {
    if numLidEntries != 0 then 0 <= ids.localId < mesh.elements.Length
    else exists i :: 0 <= i < mesh.elements.Length && mesh.elements[i].globalID == ids.globalId
  }

  /** The first slot at or after `i` holding `globalId`. */
  ghost function FirstHolding(elems: seq<ElemInfo>, globalId: int, i: nat): (j: int)
    requires i <= |elems| && exists k :: i <= k < |elems| && elems[k].globalID == globalId
    ensures i <= j < |elems| && elems[j].globalID == globalId
    ensures forall k :: i <= k < j ==> elems[k].globalID != globalId
    decreases |elems| - i
  {
    if elems[i].globalID == globalId then i else FirstHolding(elems, globalId, i + 1)
  }

  /** The slot a query is about: the local ID itself, or the first slot
      holding the global ID. */
  ghost function Target(mesh: Mesh, numLidEntries: int, ids: Ids): int
    reads mesh, mesh.elements
    requires Addressed(mesh, numLidEntries, ids)
  {
    if numLidEntries != 0 then ids.localId
    else
      assert exists k :: 0 <= k < |mesh.elements[..]| && mesh.elements[..][k].globalID == ids.globalId;
      FirstHolding(mesh.elements[..], ids.globalId, 0)
  }

  /** Finds the slot a query is about. */
  method CurrentElem(mesh: Mesh, numLidEntries: int, ids: Ids) returns (idx: int)
    requires Addressed(mesh, numLidEntries, ids)
    ensures 0 <= idx < mesh.elements.Length && idx == Target(mesh, numLidEntries, ids)
    ensures numLidEntries != 0 ==> idx == ids.localId
    ensures numLidEntries == 0 ==>
      (mesh.elements[idx].globalID == ids.globalId && forall i :: 0 <= i < idx ==> mesh.elements[i].globalID != ids.globalId)
  {
    if numLidEntries != 0 {
      idx := ids.localId;
    } else {
      var found;
      found, idx := SearchByGlobalId(mesh, ids.globalId, 0);
      ghost var t := Target(mesh, numLidEntries, ids);
      assert !(t < idx) && !(idx < t) by {
        assert mesh.elements[..][t].globalID == ids.globalId;
        assert mesh.elements[..][idx].globalID == ids.globalId;
      }
    }
  }

  /** The number of local elements. */
  method GetNumElements(mesh: Mesh?) returns (n: int, ierr: ErrCode)
    ensures mesh == null ==> n == 0 && ierr == Fatal
    ensures mesh != null ==> n == mesh.numElems && ierr == Ok
  {
    if mesh == null {
      return 0, Fatal;
    }
    n, ierr := mesh.numElems, Ok;
  }

  /** The number of coordinates per element. */
  method GetNumGeom(mesh: Mesh?) returns (n: int, ierr: ErrCode)
    ensures mesh == null ==> n == 0 && ierr == Fatal
    ensures mesh != null ==> n == mesh.numDims && ierr == Ok
  {
    if mesh == null {
      return 0, Fatal;
    }
    n, ierr := mesh.numDims, Ok;
  }

  /** The first `wdim` CPU weights, copied one by one; none when `wdim` is
      not positive. */
  method CopyWeights(cpuWgt: seq<real>, wdim: int) returns (wgt: seq<real>)
    requires wdim <= |cpuWgt|
    ensures wgt == if wdim > 0 then cpuWgt[..wdim] else []
  {
    wgt := [];
    if wdim > 0 {
      var i := 0;
      while i < wdim
        invariant 0 <= i <= wdim && wgt == cpuWgt[..i]
      {
        wgt := wgt + [cpuWgt[i]];
        i := i + 1;
      }
    }
  }

  /** Where the iterator over local elements starts: element 0, unless
      there are no elements. */
  function FirstIndex(numElems: int): Option<int>
  {
    if numElems == 0 then None else Some(0)
  }

  /** Where the iterator goes after local element `idx`: the next one, if any. */
  function NextIndex(numElems: int, idx: int): Option<int>
  {
    if idx + 1 < numElems then Some(idx + 1) else None
  }

  /** Every local element carries at least `wdim` CPU weights. */
  ghost predicate WeightsAvailable(mesh: Mesh, wdim: int)
    reads mesh, mesh.elements
  {
    forall i :: 0 <= i < mesh.numElems && i < mesh.elements.Length ==> wdim <= |mesh.elements[i].cpuWgt|
  }

  /** Starts the iteration: returns 1 with element 0's IDs and weights, or
      0 when there is no element; the caller's IDs are written only when
      an element is returned, the local ID only when local IDs are in use. */
  method GetFirstElement(mesh: Mesh?, numLidEntries: int, ids0: Ids, wdim: int)
      returns (ret: int, ids: Ids, wgt: seq<real>, ierr: ErrCode)
    requires mesh != null ==> mesh.numElems <= mesh.elements.Length && WeightsAvailable(mesh, wdim)
    requires mesh != null ==> 0 <= mesh.numElems
    ensures mesh == null ==> ret == 0 && ids == ids0 && wgt == [] && ierr == Fatal
    ensures mesh != null ==> ierr == Ok && match FirstIndex(mesh.numElems)
      case None => ret == 0 && ids == ids0 && wgt == []
      case Some(i) =>
        && ret == 1 && ids.globalId == mesh.elements[i].globalID
        && ids.localId == (if numLidEntries != 0 then i else ids0.localId)
        && wgt == if wdim > 0 then mesh.elements[i].cpuWgt[..wdim] else []
  {
    ids, wgt := ids0, [];
    if mesh == null {
      return 0, ids, wgt, Fatal;
    }
    ierr := Ok;
    if mesh.numElems == 0 {
      return 0, ids, wgt, ierr;
    }
    var current := mesh.elements[0];
    if numLidEntries != 0 {
      ids := ids.(localId := 0);
    }
    ids := ids.(globalId := current.globalID);
    wgt := CopyWeights(current.cpuWgt, wdim);
    ret := 1;
  }

  /** Advances the iteration from the element the caller names: returns 1
      with the next element's IDs and weights when there is one; otherwise
      returns 0 and leaves the error code as the caller had it. */
  method GetNextElement(mesh: Mesh?, numLidEntries: int, ids: Ids, next0: Ids, wdim: int, ierrIn: ErrCode)
      returns (found: int, next: Ids, wgt: seq<real>, ierr: ErrCode, ghost idx: int)
    requires mesh != null ==> mesh.numElems <= mesh.elements.Length && WeightsAvailable(mesh, wdim)
    requires mesh != null ==> Addressed(mesh, numLidEntries, ids)
    ensures mesh == null ==> found == 0 && next == next0 && wgt == [] && ierr == Fatal
    ensures mesh != null ==>
      && 0 <= idx < mesh.elements.Length
      && (numLidEntries != 0 ==> idx == ids.localId)
      && (numLidEntries == 0 ==> mesh.elements[idx].globalID == ids.globalId
                                 && forall i :: 0 <= i < idx ==> mesh.elements[i].globalID != ids.globalId)
      && match NextIndex(mesh.numElems, idx)
        case None => found == 0 && next == next0 && wgt == [] && ierr == ierrIn
        case Some(j) =>
          && found == 1 && ierr == Ok && next.globalId == mesh.elements[j].globalID
          && next.localId == (if numLidEntries != 0 then j else next0.localId)
          && wgt == if wdim > 0 then mesh.elements[j].cpuWgt[..wdim] else []
  {
    next, wgt, found, idx := next0, [], 0, 0;
    if mesh == null {
      return found, next, wgt, Fatal, idx;
    }
    ierr := ierrIn;
    var cur := CurrentElem(mesh, numLidEntries, ids);
    idx := cur;
    if cur + 1 < mesh.numElems {
      found := 1;
      if numLidEntries != 0 {
        next := next.(localId := cur + 1);
      }
      var nextElem := mesh.elements[cur + 1];
      next := next.(globalId := nextElem.globalID);
      wgt := CopyWeights(nextElem.cpuWgt, wdim);
      ierr := Ok;
    }
  }

  /** The local elements the iterator visits from `cur` on, given enough
      steps. */
  function WalkFrom(numElems: int, cur: Option<int>, steps: nat): seq<int>
    decreases steps
  {
    if steps == 0 then []
    else match cur
      case None => []
      case Some(i) => [i] + WalkFrom(numElems, NextIndex(numElems, i), steps - 1)
  }

  /** From element `i` the iterator visits `i`, `i + 1`, ..., up to the
      last element, and then stops, however many more steps it is given. */
  lemma {:induction false} WalkFromVisitsRest(numElems: int, i: int, steps: nat)
    requires 0 <= i < numElems && numElems - i <= steps
    ensures WalkFrom(numElems, Some(i), steps) == seq(numElems - i, j requires 0 <= j < numElems - i => i + j)
    decreases steps
  {
    if i + 1 < numElems {
      WalkFromVisitsRest(numElems, i + 1, steps - 1);
    }
  }

  /** Starting from the first element, the iterator visits every local
      element exactly once, in local order. */
  lemma IteratorVisitsAll(numElems: nat, steps: nat)
    requires numElems <= steps
    ensures WalkFrom(numElems, FirstIndex(numElems), steps) == seq(numElems, j requires 0 <= j < numElems => j)
  {
    if numElems > 0 {
      WalkFromVisitsRest(numElems, 0, steps);
    }
  }

  /** The number of edges of the element the caller names: its `nadj`. */
  method GetNumEdges(mesh: Mesh?, numLidEntries: int, ids: Ids) returns (n: int, ierr: ErrCode, ghost idx: int)
    requires mesh != null ==> Addressed(mesh, numLidEntries, ids)
    ensures mesh == null ==> n == 0 && ierr == Fatal
    ensures mesh != null ==>
      && 0 <= idx < mesh.elements.Length && ierr == Ok && n == mesh.elements[idx].nadj
      && idx == Target(mesh, numLidEntries, ids)
      && (numLidEntries != 0 ==> idx == ids.localId)
      && (numLidEntries == 0 ==> mesh.elements[idx].globalID == ids.globalId)
  {
    idx := 0;
    if mesh == null {
      return 0, Fatal, idx;
    }
    ierr := Ok;
    var cur := CurrentElem(mesh, numLidEntries, ids);
    idx := cur;
    n := mesh.elements[cur].nadj;
  }

  /** One edge reported to the partitioner: the neighbour's global ID, its
      process and the edge weight. */
  datatype Edge = Edge(nbor: int, proc: int, wgt: real)

  /** The slots of `r` can be reported: they match its side count, a
      weight array, when there is one, has one weight per slot, and every
      neighbour on this process `proc` is a local element slot. */
  ghost predicate Reportable(elems: seq<ElemInfo>, r: ElemInfo, proc: int)
  {
    && 0 <= r.adjLen && |r.adj| == r.adjLen && |r.adjProc| == r.adjLen
    && (r.edgeWgt.Some? ==> |r.edgeWgt.value| == r.adjLen)
    && forall i :: 0 <= i < r.adjLen && r.adj[i] != NoNeighbour && r.adjProc[i] == proc ==> 0 <= r.adj[i] < |elems|
  }

  /** The edge slot `i` of `r` stands for: a neighbour on this process is
      named by its global ID, one on another process by the stored ID; the
      weight is the slot's, or 1 when the element has no weights. */
  function SlotEdge(elems: seq<ElemInfo>, r: ElemInfo, proc: int, i: int): Edge
    requires Reportable(elems, r, proc) && 0 <= i < r.adjLen && r.adj[i] != NoNeighbour
  {
    Edge(if r.adjProc[i] == proc then elems[r.adj[i]].globalID else r.adj[i],
         r.adjProc[i],
         if r.edgeWgt.None? then 1.0 else r.edgeWgt.value[i])
  }

  /** The edges of the first `k` slots: one per slot with a neighbour, in
      side order. */
  ghost function Edges(elems: seq<ElemInfo>, r: ElemInfo, proc: int, k: int): seq<Edge>
    requires Reportable(elems, r, proc) && 0 <= k <= r.adjLen
  {
    if k == 0 then []
    else Edges(elems, r, proc, k - 1) + (if r.adj[k - 1] == NoNeighbour then [] else [SlotEdge(elems, r, proc, k - 1)])
  }

  /** There is one edge per populated slot. */
  lemma {:induction false} EdgesCount(elems: seq<ElemInfo>, r: ElemInfo, proc: int, k: int)
    requires Reportable(elems, r, proc) && 0 <= k <= r.adjLen
    ensures |Edges(elems, r, proc, k)| == CountFilled(r.adj[..k])
  {
    if k > 0 {
      EdgesCount(elems, r, proc, k - 1);
      assert r.adj[..k][..k - 1] == r.adj[..k - 1];
    }
  }

  /** The populated slot `i` is reported as edge number `CountFilled(adj[..i])`:
      exactly the populated slots appear, in side order. */
  lemma {:induction false} EdgeOfSlot(elems: seq<ElemInfo>, r: ElemInfo, proc: int, k: int, i: int)
    requires Reportable(elems, r, proc) && 0 <= i < k <= r.adjLen && r.adj[i] != NoNeighbour
    ensures CountFilled(r.adj[..i]) < |Edges(elems, r, proc, k)|
    ensures Edges(elems, r, proc, k)[CountFilled(r.adj[..i])] == SlotEdge(elems, r, proc, i)
  {
    EdgesCount(elems, r, proc, k - 1);
    if i < k - 1 {
      EdgeOfSlot(elems, r, proc, k - 1, i);
    } else {
      EdgesCount(elems, r, proc, i);
    }
  }

  /** Every reported edge comes from a populated slot. */
  lemma {:induction false} SlotOfEdge(elems: seq<ElemInfo>, r: ElemInfo, proc: int, k: int, j: int) returns (i: int)
    requires Reportable(elems, r, proc) && 0 <= k <= r.adjLen && 0 <= j < |Edges(elems, r, proc, k)|
    ensures 0 <= i < k && r.adj[i] != NoNeighbour && Edges(elems, r, proc, k)[j] == SlotEdge(elems, r, proc, i)
  {
    if j < |Edges(elems, r, proc, k - 1)| {
      i := SlotOfEdge(elems, r, proc, k - 1, j);
    } else {
      i := k - 1;
    }
  }

  /** An element without a weight array reports every edge with weight 1. */
  lemma UnweightedEdgesWeighOne(elems: seq<ElemInfo>, r: ElemInfo, proc: int, k: int, j: int)
    requires Reportable(elems, r, proc) && r.edgeWgt.None? && 0 <= k <= r.adjLen
    requires 0 <= j < |Edges(elems, r, proc, k)|
    ensures Edges(elems, r, proc, k)[j].wgt == 1.0
  {
    var i := SlotOfEdge(elems, r, proc, k, j);
  }

  /** The edge count query and the edge list agree whenever `nadj` counts
      the populated slots. */
  lemma EdgeListMatchesCount(elems: seq<ElemInfo>, r: ElemInfo, proc: int)
    requires Reportable(elems, r, proc) && Conserved(r)
    ensures |Edges(elems, r, proc, r.adjLen)| == r.nadj
  {
    EdgesCount(elems, r, proc, r.adjLen);
    assert r.adj[..r.adjLen] == r.adj;
  }

  /** Lists the edges of the element the caller names, one per side with a
      neighbour, in side order; weights are reported only when asked for.
      The mesh is not changed. */
  method GetEdgeList(mesh: Mesh?, numLidEntries: int, ids: Ids, proc: int, getEwgts: bool)
      returns (nborGlobalIds: seq<int>, nborProcs: seq<int>, nborEwgts: seq<real>, ierr: ErrCode, ghost idx: int)
    requires mesh != null ==> Addressed(mesh, numLidEntries, ids)
    requires mesh != null ==> Reportable(mesh.elements[..], mesh.elements[Target(mesh, numLidEntries, ids)], proc)
    ensures mesh == null ==> nborGlobalIds == [] && nborProcs == [] && nborEwgts == [] && ierr == Fatal
    ensures mesh != null ==>
      && 0 <= idx < mesh.elements.Length && ierr == Ok
      && idx == Target(mesh, numLidEntries, ids)
      && (numLidEntries != 0 ==> idx == ids.localId)
      && (numLidEntries == 0 ==> mesh.elements[idx].globalID == ids.globalId)
      && var r := mesh.elements[idx];
         var edges := Edges(mesh.elements[..], r, proc, r.adjLen);
         && |nborGlobalIds| == |nborProcs| == |edges|
         && (forall j :: 0 <= j < |edges| ==> nborGlobalIds[j] == edges[j].nbor && nborProcs[j] == edges[j].proc)
         && nborEwgts == if getEwgts then seq(|edges|, j requires 0 <= j < |edges| => edges[j].wgt) else []
  {
    nborGlobalIds, nborProcs, nborEwgts, idx := [], [], [], 0;
    if mesh == null {
      return nborGlobalIds, nborProcs, nborEwgts, Fatal, idx;
    }
    var cur := CurrentElem(mesh, numLidEntries, ids);
    idx := cur;
    var current := mesh.elements[cur];
    ghost var elems := mesh.elements[..];
    assert Reportable(elems, current, proc);
    var i := 0;
    while i < current.adjLen
      invariant 0 <= i <= current.adjLen
      invariant var edges := Edges(elems, current, proc, i);
        && |nborGlobalIds| == |nborProcs| == |edges|
        && (forall j :: 0 <= j < |edges| ==> nborGlobalIds[j] == edges[j].nbor && nborProcs[j] == edges[j].proc)
        && nborEwgts == if getEwgts then seq(|edges|, j requires 0 <= j < |edges| => edges[j].wgt) else []
    {
      if current.adj[i] != NoNeighbour {
        if current.adjProc[i] == proc {
          var localElem := current.adj[i];
          nborGlobalIds := nborGlobalIds + [mesh.elements[localElem].globalID];
        } else {
          nborGlobalIds := nborGlobalIds + [current.adj[i]];
        }
        nborProcs := nborProcs + [current.adjProc[i]];
        if getEwgts {
          if current.edgeWgt.None? {
            nborEwgts := nborEwgts + [1.0];
          } else {
            nborEwgts := nborEwgts + [current.edgeWgt.value[i]];
          }
        }
      }
      i := i + 1;
    }
    ierr := Ok;
  }

  /** The geometry query's checks: it fails on a missing mesh and on an
      element whose block has no nodes, since no coordinates were read for
      it; otherwise it succeeds. */
  method GetGeom(mesh: Mesh?, numLidEntries: int, ids: Ids) returns (ierr: ErrCode, ghost idx: int)
    requires mesh != null ==> Addressed(mesh, numLidEntries, ids)
    requires mesh != null ==> 0 <= mesh.elements[Target(mesh, numLidEntries, ids)].elemBlk < |mesh.ebNnodes|
    ensures mesh == null ==> ierr == Fatal
    ensures mesh != null ==>
      && 0 <= idx < mesh.elements.Length
      && idx == Target(mesh, numLidEntries, ids)
      && (numLidEntries != 0 ==> idx == ids.localId)
      && (numLidEntries == 0 ==> mesh.elements[idx].globalID == ids.globalId)
      && (ierr == Fatal <==> mesh.ebNnodes[mesh.elements[idx].elemBlk] == 0)
  {
    idx := 0;
    if mesh == null {
      return Fatal, idx;
    }
    var cur := CurrentElem(mesh, numLidEntries, ids);
    idx := cur;
    if mesh.ebNnodes[mesh.elements[cur].elemBlk] == 0 {
      return Fatal, idx;
    }
    ierr := Ok;
  }
}
