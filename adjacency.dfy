/** Local face adjacency: for every side of every local element with more
    than one node, the other local element sharing that side, found by
    intersecting the node-to-element lists of the side's nodes and
    confirmed by a side lookup on the neighbour. */
module Adjacency {
  import opened MeshData
  import opened SeqUtil
  import opened ElemTypes
  import opened Intersect
  import Surround

  /** What adjacency construction reads and never writes: the calling
      process, the mesh's block metadata, the block and connectivity of
      every element slot, the node-to-element lists with their lengths and
      the longest length, and the element-type tables. */
  datatype Ctx = Ctx(proc: int, numDims: int, numElems: int,
                     ebEtypes: seq<int>, ebNnodes: seq<int>, shapes: seq<ElemShape>,
                     sur: seq<seq<int>>, nsurnd: seq<int>, maxNsur: int, t: ElemTable)

  /** Every node's list is sorted, names local elements only, and fits the
      buffer of `maxNsur` entries. */
  ghost predicate ListsValid(c: Ctx)
  {
    && |c.nsurnd| == |c.sur|
    && forall n :: 0 <= n < |c.sur| ==>
      && 0 <= c.nsurnd[n] <= |c.sur[n]| && c.nsurnd[n] <= c.maxNsur
      && StrictlyIncreasing(c.sur[n][..c.nsurnd[n]])
      && AllIn(c.sur[n][..c.nsurnd[n]], 0, c.numElems)
  }

  /** Element `e` names a known block, has its node count, refers to known
      nodes, and its sides are laid out within its connectivity. */
  ghost predicate ShapeValid(c: Ctx, e: int)
    requires 0 <= e < |c.shapes| && |c.ebEtypes| == |c.ebNnodes|
  {
    var sh := c.shapes[e];
    && 0 <= sh.blk < |c.ebNnodes|
    && |sh.connect| == c.ebNnodes[sh.blk]
    && (forall i :: 0 <= i < |sh.connect| ==> 0 <= sh.connect[i] < |c.sur|)
    && (c.ebNnodes[sh.blk] > 1 ==> SidesWithin(c.t, c.ebEtypes[sh.blk], c.ebNnodes[sh.blk]))
  }

  ghost predicate CtxValid(c: Ctx)
  {
    && 0 <= c.numElems <= |c.shapes|
    && |c.ebEtypes| == |c.ebNnodes|
    && 0 <= c.maxNsur
    && ListsValid(c)
    && forall e :: 0 <= e < c.numElems ==> ShapeValid(c, e)
  }

  /** The block of element `e`. */
  function Blk(c: Ctx, e: int): (b: int)
    requires CtxValid(c) && 0 <= e < c.numElems
    ensures 0 <= b < |c.ebNnodes| == |c.ebEtypes|
  {
    assert ShapeValid(c, e);
    c.shapes[e].blk
  }

  function Etype(c: Ctx, e: int): int
    requires CtxValid(c) && 0 <= e < c.numElems
  {
    c.ebEtypes[Blk(c, e)]
  }

  /** Element `e` takes part in the graph (more than one node) and its
      type has a side count. */
  ghost predicate HasSides(c: Ctx, e: int)
    requires CtxValid(c) && 0 <= e < c.numElems
  {
    c.ebNnodes[Blk(c, e)] > 1 && c.t.numSides(Etype(c, e)) >= 0
  }

  /** The nodes on side `s + 1` of element `e`. */
  function SideNodesOf(c: Ctx, e: int, s: int): (sn: seq<int>)
    requires CtxValid(c) && 0 <= e < c.numElems && HasSides(c, e)
    requires 0 <= s < c.t.numSides(Etype(c, e))
    ensures 1 <= |sn| && forall k :: 0 <= k < |sn| ==> 0 <= sn[k] < |c.sur|
  {
    assert ShapeValid(c, e);
    assert SideWithin(c.t, Etype(c, e), s + 1, |c.shapes[e].connect|);
    SideNodes(c.t, Etype(c, e), c.shapes[e].connect, s + 1)
  }

  /** The node-to-element lists of the nodes `sn`. */
  function SideLists(c: Ctx, sn: seq<int>): (lists: seq<seq<int>>)
    requires ListsValid(c) && forall k :: 0 <= k < |sn| ==> 0 <= sn[k] < |c.sur|
    ensures |lists| == |sn|
    ensures forall j :: 0 <= j < |sn| ==> lists[j] == c.sur[sn[j]][..c.nsurnd[sn[j]]]
  {
    seq(|sn|, j requires 0 <= j < |sn| => c.sur[sn[j]][..c.nsurnd[sn[j]]])
  }

  /** The number of intersections a side needs: one fewer than the nodes
      that determine a face (the dimension), capped by the side's own
      node count. */
  function Steps(numDims: int, sideCnt: int): (n: int)
    ensures n < sideCnt && n < numDims
    ensures n == sideCnt - 1 || n == numDims - 1
  {
    (if sideCnt < numDims then sideCnt else numDims) - 1
  }

  lemma {:induction false} CandidatesInRange(lists: seq<seq<int>>, steps: int, hi: int)
    requires 1 <= |lists| && steps < |lists|
    requires AllIn(lists[0], 0, hi)
    ensures AllIn(Candidates(lists, steps), 0, hi)
  {
    var r := Candidates(lists, steps);
    forall k | 0 <= k < |r| ensures 0 <= r[k] < hi {
      CommonMembership(lists, steps, r[k]);
    }
  }

  /** The elements left after narrowing side `s + 1` of element `e`. */
  ghost function SideCands(c: Ctx, e: int, s: int): (r: seq<int>)
    requires CtxValid(c) && 0 <= e < c.numElems && HasSides(c, e)
    requires 0 <= s < c.t.numSides(Etype(c, e))
    ensures AllIn(r, 0, c.numElems)
  {
    var sn := SideNodesOf(c, e, s);
    var lists := SideLists(c, sn);
    CandidatesInRange(lists, Steps(c.numDims, |sn|), c.numElems);
    Candidates(lists, Steps(c.numDims, |sn|))
  }

  /** The side of element `x` whose nodes are `mirror`, by the type table. */
  function SideIdOf(c: Ctx, x: int, mirror: seq<int>): int
    requires CtxValid(c) && 0 <= x < c.numElems
  {
    c.t.sideId(Etype(c, x), c.shapes[x].connect, mirror)
  }

  /** The nodes of side `s + 1` of `e` in the order a neighbour lists them. */
  function MirrorOf(c: Ctx, e: int, s: int): seq<int>
    requires CtxValid(c) && 0 <= e < c.numElems && HasSides(c, e)
    requires 0 <= s < c.t.numSides(Etype(c, e))
  {
    c.t.mirror(Etype(c, e), SideNodesOf(c, e, s), s + 1)
  }

  /** The edge weight of side `s + 1`: its number of nodes. */
  function Weight(c: Ctx, e: int, s: int): real
    requires CtxValid(c) && 0 <= e < c.numElems
  {
    c.t.sideNodeCount(Etype(c, e), s + 1) as real
  }

  /** The outcome of checking a side's candidates in order: whether a
      side lookup failed, how many candidates were confirmed before that,
      and the last one confirmed. */
  datatype Tally = Tally(failed: bool, count: nat, last: int)

  ghost function Validate(c: Ctx, e: int, mirror: seq<int>, cands: seq<int>): (r: Tally)
    requires CtxValid(c) && AllIn(cands, 0, c.numElems)
  {
    if cands == [] then Tally(false, 0, NoNeighbour)
    else
      var prev := Validate(c, e, mirror, cands[..|cands| - 1]);
      var x := cands[|cands| - 1];
      if prev.failed || x == e then prev
      else
        var sid := SideIdOf(c, x, mirror);
        if sid > 0 then Tally(false, prev.count + 1, x)
        else if sid < 0 then Tally(true, prev.count, prev.last)
        else prev
  }

  /** The checked candidates of side `s + 1` of element `e`. */
  ghost function SideTally(c: Ctx, e: int, s: int): Tally
    requires CtxValid(c) && 0 <= e < c.numElems && HasSides(c, e)
    requires 0 <= s < c.t.numSides(Etype(c, e))
  {
    Validate(c, e, MirrorOf(c, e, s), SideCands(c, e, s))
  }

  /** Records the confirmed neighbours of side `s + 1`: each confirmation
      counts in `nadj`, and the slot keeps the last one. */
  ghost function ApplyTally(proc: int, s: int, r: ElemInfo, tally: Tally, w: real): (r1: ElemInfo)
    requires SlotsWellFormed(r) && 0 <= s < r.adjLen
    ensures SlotsWellFormed(r1) && r1.adjLen == r.adjLen
  {
    if tally.count == 0 then r
    else r.(nadj := r.nadj + tally.count,
             adj := r.adj[s := tally.last],
             adjProc := r.adjProc[s := proc],
             edgeWgt := Some(r.edgeWgt.value[s := w]))
  }

  /** Confirming one more candidate `x` counts it and puts it in the slot. */
  lemma ApplyTallyStep(proc: int, s: int, r0: ElemInfo, tally: Tally, w: real, x: int)
    requires SlotsWellFormed(r0) && 0 <= s < r0.adjLen
    ensures var r := ApplyTally(proc, s, r0, tally, w);
      ApplyTally(proc, s, r0, Tally(false, tally.count + 1, x), w) ==
      r.(nadj := r.nadj + 1, adj := r.adj[s := x], adjProc := r.adjProc[s := proc],
         edgeWgt := Some(r.edgeWgt.value[s := w]))
  {
    var r := ApplyTally(proc, s, r0, tally, w);
    assert r.adj[s := x] == r0.adj[s := x];
    assert r.adjProc[s := proc] == r0.adjProc[s := proc];
    assert r.edgeWgt.value[s := w] == r0.edgeWgt.value[s := w];
  }

  /** One slot per side, each without a neighbour; the rest of the record
      as it was. */
  function InitSlots(r: ElemInfo, nsides: nat): (r1: ElemInfo)
    ensures SlotsWellFormed(r1) && r1.adjLen == nsides
    ensures forall s :: 0 <= s < nsides ==> FreshSlot(r1, s)
    ensures r1.(adjLen := r.adjLen, adj := r.adj, adjProc := r.adjProc, edgeWgt := r.edgeWgt) == r
  {
    r.(adjLen := nsides,
       adj := seq(nsides, _ => NoNeighbour),
       adjProc := seq(nsides, _ => -1),
       edgeWgt := Some(seq(nsides, _ => 0.0)))
  }

  /** Whether a pass failed, and the state it left. */
  datatype ElemOutcome = ElemOutcome(failed: bool, r: ElemInfo)

  /** The checked candidates of every side of element `e`. */
  ghost function SideTallies(c: Ctx, e: int): (ts: seq<Tally>)
    requires CtxValid(c) && 0 <= e < c.numElems && HasSides(c, e)
    ensures |ts| == c.t.numSides(Etype(c, e))
    ensures forall s :: 0 <= s < |ts| ==> ts[s] == SideTally(c, e, s)
  {
    var n := c.t.numSides(Etype(c, e));
    seq(n, s requires 0 <= s < n => SideTally(c, e, s))
  }

  /** The edge weights of every side of element `e`. */
  ghost function SideWeights(c: Ctx, e: int, n: nat): (ws: seq<real>)
    requires CtxValid(c) && 0 <= e < c.numElems
    ensures |ws| == n && forall s :: 0 <= s < n ==> ws[s] == Weight(c, e, s)
  {
    seq(n, s requires 0 <= s < n => Weight(c, e, s))
  }

  /** A record after its first `k` sides are examined, starting from `r0`,
      side `s + 1` checking to `ts[s]` with edge weight `ws[s]`;
      examination stops at the first failing side. */
  ghost function SidesUpTo(proc: int, r0: ElemInfo, ts: seq<Tally>, ws: seq<real>, k: int): (o: ElemOutcome)
    requires SlotsWellFormed(r0) && r0.adjLen == |ts| == |ws|
    requires 0 <= k <= |ts|
    ensures SlotsWellFormed(o.r) && o.r.adjLen == r0.adjLen
  {
    if k == 0 then ElemOutcome(false, r0)
    else
      var prev := SidesUpTo(proc, r0, ts, ws, k - 1);
      if prev.failed then prev
      else ElemOutcome(ts[k - 1].failed, ApplyTally(proc, k - 1, prev.r, ts[k - 1], ws[k - 1]))
  }

  /** The record of element `e` after adjacency construction: unchanged
      for an element of at most one node; a failure when its type has no
      side count; otherwise fresh slots examined side by side. */
  ghost function ElemAdjacency(c: Ctx, e: int, r0: ElemInfo): ElemOutcome
    requires CtxValid(c) && 0 <= e < c.numElems
  {
    if c.ebNnodes[Blk(c, e)] <= 1 then ElemOutcome(false, r0)
    else
      var nsides := c.t.numSides(Etype(c, e));
      if nsides < 0 then ElemOutcome(true, r0)
      else SidesUpTo(c.proc, InitSlots(r0, nsides), SideTallies(c, e), SideWeights(c, e, nsides), nsides)
  }

  /** Whether a pass over the mesh failed, and the records it left. */
  datatype MeshOutcome = MeshOutcome(failed: bool, elems: seq<ElemInfo>)

  /** The records after the first `k` elements are processed; processing
      stops at the first failing element. */
  ghost function MeshAdjacency(c: Ctx, elems0: seq<ElemInfo>, k: int): (o: MeshOutcome)
    requires CtxValid(c) && 0 <= k <= c.numElems <= |elems0|
    ensures |o.elems| == |elems0|
  {
    if k == 0 then MeshOutcome(false, elems0)
    else
      var prev := MeshAdjacency(c, elems0, k - 1);
      if prev.failed then prev
      else
        var out := ElemAdjacency(c, k - 1, prev.elems[k - 1]);
        MeshOutcome(out.failed, prev.elems[k - 1 := out.r])
  }

  /** Confirms the candidates `hold[..nelem]` of side `s + 1` of element
      `e` one by one, recording each confirmed neighbour in the side's
      slot; stops with failure at a negative side lookup. */
  method ConfirmCands(c: Ctx, e: int, s: int, sn: seq<int>, hold: array<int>, nelem: int, r0: ElemInfo)
      returns (failed: bool, r: ElemInfo)
    requires CtxValid(c) && 0 <= e < c.numElems && HasSides(c, e)
    requires 0 <= s < c.t.numSides(Etype(c, e)) && sn == SideNodesOf(c, e, s)
    requires SlotsWellFormed(r0) && s < r0.adjLen
    requires 0 <= nelem <= hold.Length && AllIn(hold[..nelem], 0, c.numElems)
    ensures var tally := Validate(c, e, MirrorOf(c, e, s), hold[..nelem]);
      failed == tally.failed && r == ApplyTally(c.proc, s, r0, tally, Weight(c, e, s))
  {
    ghost var mirror := MirrorOf(c, e, s);
    failed, r := false, r0;
    var i := 0;
    while i < nelem
      invariant 0 <= i <= nelem
      invariant var tally := Validate(c, e, mirror, hold[..i]);
        !tally.failed && r == ApplyTally(c.proc, s, r0, tally, Weight(c, e, s))
    {
      assert hold[..i + 1][..i] == hold[..i];
      var entry := hold[i];
      if entry != e {
        var mirrorNodes := c.t.mirror(Etype(c, e), sn, s + 1);
        var sid := c.t.sideId(Etype(c, entry), c.shapes[entry].connect, mirrorNodes);
        if sid > 0 {
          ApplyTallyStep(c.proc, s, r0, Validate(c, e, mirror, hold[..i]), Weight(c, e, s), entry);
          r := r.(nadj := r.nadj + 1,
                  adj := r.adj[s := entry],
                  adjProc := r.adjProc[s := c.proc],
                  edgeWgt := Some(r.edgeWgt.value[s := c.t.sideNodeCount(Etype(c, e), s + 1) as real]));
        } else if sid < 0 {
          failed := true;
          assert hold[..nelem][..i + 1] == hold[..i + 1];
          ValidateFailedStays(c, e, mirror, hold[..nelem], i + 1);
          return;
        }
      }
      i := i + 1;
    }
    assert hold[..i] == hold[..nelem];
  }

  /** Once a lookup has failed, later candidates change nothing. */
  lemma {:induction false} ValidateFailedStays(c: Ctx, e: int, mirror: seq<int>, cands: seq<int>, k: int)
    requires CtxValid(c) && AllIn(cands, 0, c.numElems) && 0 <= k <= |cands|
    requires Validate(c, e, mirror, cands[..k]).failed
    ensures Validate(c, e, mirror, cands) == Validate(c, e, mirror, cands[..k])
  {
    if k < |cands| {
      assert cands[..|cands| - 1][..k] == cands[..k];
      ValidateFailedStays(c, e, mirror, cands[..|cands| - 1], k);
    } else {
      assert cands[..k] == cands;
    }
  }

  /** Examines side `s + 1` of element `e`: narrows its candidates in
      `hold`, then confirms them when at least two remain. */
  method ExamineSide(c: Ctx, e: int, s: int, hold: array<int>, r0: ElemInfo)
      returns (failed: bool, r: ElemInfo)
    requires CtxValid(c) && 0 <= e < c.numElems && HasSides(c, e)
    requires 0 <= s < c.t.numSides(Etype(c, e))
    requires SlotsWellFormed(r0) && s < r0.adjLen
    requires c.maxNsur <= hold.Length
    modifies hold
    ensures var tally := SideTally(c, e, s);
      failed == tally.failed && r == ApplyTally(c.proc, s, r0, tally, Weight(c, e, s))
  {
    var sn := SideNodesOf(c, e, s);
    var steps := Steps(c.numDims, |sn|);
    var lists := SideLists(c, sn);
    var nelem := Narrow(hold, lists, steps);
    CandidatesInRange(lists, steps, c.numElems);
    if nelem > 1 {
      failed, r := ConfirmCands(c, e, s, sn, hold, nelem, r0);
    } else {
      failed, r := false, r0;
    }
  }

  /** Once a side has failed, the record stays as that side left it. */
  lemma {:induction false} SidesFailedStays(proc: int, r0: ElemInfo, ts: seq<Tally>, ws: seq<real>, j: int, k: int)
    requires SlotsWellFormed(r0) && r0.adjLen == |ts| == |ws|
    requires 0 <= j <= k <= |ts|
    requires SidesUpTo(proc, r0, ts, ws, j).failed
    ensures SidesUpTo(proc, r0, ts, ws, k) == SidesUpTo(proc, r0, ts, ws, j)
  {
    if j < k {
      SidesFailedStays(proc, r0, ts, ws, j, k - 1);
    }
  }

  /** Examines every side of element `e` in order, from the fresh slots
      `r0`; stops at the first failing side. */
  method ExamineSides(c: Ctx, e: int, hold: array<int>, r0: ElemInfo) returns (failed: bool, r: ElemInfo)
    requires CtxValid(c) && 0 <= e < c.numElems && HasSides(c, e)
    requires SlotsWellFormed(r0) && r0.adjLen == c.t.numSides(Etype(c, e))
    requires c.maxNsur <= hold.Length
    modifies hold
    ensures ElemOutcome(failed, r) == SidesUpTo(c.proc, r0, SideTallies(c, e), SideWeights(c, e, r0.adjLen), r0.adjLen)
  {
    ghost var ts := SideTallies(c, e);
    ghost var ws := SideWeights(c, e, r0.adjLen);
    failed, r := false, r0;
    var s := 0;
    while s < r0.adjLen
      invariant 0 <= s <= r0.adjLen
      invariant ElemOutcome(false, r) == SidesUpTo(c.proc, r0, ts, ws, s)
      invariant SlotsWellFormed(r) && r.adjLen == r0.adjLen
    {
      failed, r := ExamineSide(c, e, s, hold, r);
      assert ts[s] == SideTally(c, e, s) && ws[s] == Weight(c, e, s);
      assert SidesUpTo(c.proc, r0, ts, ws, s + 1) == ElemOutcome(failed, r);
      if failed {
        SidesFailedStays(c.proc, r0, ts, ws, s + 1, r0.adjLen);
        return;
      }
      s := s + 1;
    }
  }

  /** Builds the adjacency slots of element `e` from its record `r0`. */
  method BuildElemAdjacency(c: Ctx, e: int, hold: array<int>, r0: ElemInfo)
      returns (failed: bool, r: ElemInfo)
    requires CtxValid(c) && 0 <= e < c.numElems
    requires c.maxNsur <= hold.Length
    modifies hold
    ensures ElemOutcome(failed, r) == ElemAdjacency(c, e, r0)
  {
    failed, r := false, r0;
    if c.ebNnodes[Blk(c, e)] > 1 {
      var nsides := c.t.numSides(Etype(c, e));
      if nsides < 0 {
        failed := true;
      } else {
        failed, r := ExamineSides(c, e, hold, InitSlots(r0, nsides));
      }
    }
  }

  /** Once an element has failed, the records stay as they were left. */
  lemma {:induction false} MeshFailedStays(c: Ctx, elems0: seq<ElemInfo>, j: int, k: int)
    requires CtxValid(c) && 0 <= j <= k <= c.numElems <= |elems0|
    requires MeshAdjacency(c, elems0, j).failed
    ensures MeshAdjacency(c, elems0, k) == MeshAdjacency(c, elems0, j)
  {
    if j < k {
      MeshFailedStays(c, elems0, j, k - 1);
    }
  }

  /** Builds the adjacency of the first `c.numElems` records of
      `elements`, in element order; stops at the first failing element. */
  method AdjacencyPass(c: Ctx, elements: array<ElemInfo>, hold: array<int>) returns (ok: bool)
    requires CtxValid(c) && c.numElems <= elements.Length
    requires c.maxNsur <= hold.Length
    modifies elements, hold
    ensures var out := MeshAdjacency(c, old(elements[..]), c.numElems);
      ok == !out.failed && elements[..] == out.elems
  {
    ghost var elems0 := elements[..];
    var ielem := 0;
    while ielem < c.numElems
      invariant 0 <= ielem <= c.numElems
      invariant MeshAdjacency(c, elems0, ielem) == MeshOutcome(false, elements[..])
    {
      var failed, r := BuildElemAdjacency(c, ielem, hold, elements[ielem]);
      elements[ielem] := r;
      if failed {
        MeshFailedStays(c, elems0, ielem + 1, c.numElems);
        return false;
      }
      ielem := ielem + 1;
    }
    return true;
  }

  /** The confirmed neighbour is a candidate other than the element, with
      a positive side lookup; a check fails exactly when some other
      candidate's lookup is negative, and confirms none exactly when every
      other candidate's lookup is 0. */
  lemma {:induction false} ValidateFacts(c: Ctx, e: int, mirror: seq<int>, cands: seq<int>)
    requires CtxValid(c) && AllIn(cands, 0, c.numElems)
    ensures var r := Validate(c, e, mirror, cands);
      && (r.count > 0 ==> r.last in cands && r.last != e && SideIdOf(c, r.last, mirror) > 0)
      && (r.count == 0 ==> r.last == NoNeighbour)
      && r.count <= |cands|
      && (!r.failed <==> forall k :: 0 <= k < |cands| && cands[k] != e ==> SideIdOf(c, cands[k], mirror) >= 0)
      && (!r.failed && r.count == 0 <==>
            forall k :: 0 <= k < |cands| && cands[k] != e ==> SideIdOf(c, cands[k], mirror) == 0)
  {
    if cands != [] {
      var init := cands[..|cands| - 1];
      ValidateFacts(c, e, mirror, init);
      assert forall k :: 0 <= k < |init| ==> init[k] == cands[k];
    }
  }

  /** A slot with no neighbour. */
  ghost predicate FreshSlot(r: ElemInfo, s: int)
    requires SlotsWellFormed(r) && 0 <= s < r.adjLen
  {
    r.adj[s] == NoNeighbour && r.adjProc[s] == -1 && r.edgeWgt.value[s] == 0.0
  }

  /** Side `s + 1` of `e`, holding neighbour `a` on process `p` with edge
      weight `w`, is either without a neighbour, and then no candidate was
      confirmed, or names a confirmed candidate other than `e` itself, on
      this process, weighted by the side's node count. */
  ghost predicate SlotFacts(c: Ctx, e: int, s: int, a: int, p: int, w: real)
    requires CtxValid(c) && 0 <= e < c.numElems && HasSides(c, e)
    requires 0 <= s < c.t.numSides(Etype(c, e))
  {
    || (a == NoNeighbour && p == -1 && w == 0.0 && SideTally(c, e, s).count == 0)
    || (&& a in SideCands(c, e, s) && a != e
        && SideIdOf(c, a, MirrorOf(c, e, s)) > 0
        && p == c.proc && w == Weight(c, e, s))
  }

  /** Slot `a`, `p`, `wv` of a side as the tally of its candidates leaves
      it: empty when none was confirmed, otherwise the last one confirmed,
      on process `proc`, with the side's weight `w`. */
  ghost predicate TallySlot(proc: int, tally: Tally, w: real, a: int, p: int, wv: real)
  {
    || (tally.count == 0 && a == NoNeighbour && p == -1 && wv == 0.0)
    || (tally.count > 0 && a == tally.last && p == proc && wv == w)
  }

  /** Recording a tally on a fresh slot gives that slot its tally's
      contents, leaves the other slots alone, and raises `nadj` by at least
      the change in filled slots (exactly, when at most one candidate is
      confirmed). */
  lemma ApplyTallyFacts(proc: int, s: int, r: ElemInfo, tally: Tally, w: real)
    requires SlotsWellFormed(r) && 0 <= s < r.adjLen && FreshSlot(r, s)
    requires tally.count > 0 ==> tally.last != NoNeighbour
    ensures var r1 := ApplyTally(proc, s, r, tally, w);
      && TallySlot(proc, tally, w, r1.adj[s], r1.adjProc[s], r1.edgeWgt.value[s])
      && (forall q :: 0 <= q < r.adjLen && q != s ==>
            r1.adj[q] == r.adj[q] && r1.adjProc[q] == r.adjProc[q] && r1.edgeWgt.value[q] == r.edgeWgt.value[q])
      && r1.nadj - r.nadj >= CountFilled(r1.adj) - CountFilled(r.adj)
      && (tally.count <= 1 ==> r1.nadj - r.nadj == CountFilled(r1.adj) - CountFilled(r.adj))
  {
    if tally.count > 0 {
      CountFilledFill(r.adj, s, tally.last);
    }
  }

  /** After the first `k` sides: each examined slot holds what its tally
      leaves, and the later slots are still fresh. */
  lemma {:induction false} SidesSlots(proc: int, r0: ElemInfo, ts: seq<Tally>, ws: seq<real>, k: int)
    requires SlotsWellFormed(r0) && r0.adjLen == |ts| == |ws|
    requires forall s :: 0 <= s < r0.adjLen ==> FreshSlot(r0, s)
    requires forall s :: 0 <= s < |ts| && ts[s].count > 0 ==> ts[s].last != NoNeighbour
    requires 0 <= k <= |ts| && !SidesUpTo(proc, r0, ts, ws, k).failed
    ensures var r := SidesUpTo(proc, r0, ts, ws, k).r;
      && (forall s :: 0 <= s < k ==> TallySlot(proc, ts[s], ws[s], r.adj[s], r.adjProc[s], r.edgeWgt.value[s]))
      && (forall s :: k <= s < r.adjLen ==> FreshSlot(r, s))
  {
    if k > 0 {
      var prev := SidesUpTo(proc, r0, ts, ws, k - 1);
      assert !prev.failed;
      SidesSlots(proc, r0, ts, ws, k - 1);
      ApplyTallyFacts(proc, k - 1, prev.r, ts[k - 1], ws[k - 1]);
      var r := ApplyTally(proc, k - 1, prev.r, ts[k - 1], ws[k - 1]);
      assert SidesUpTo(proc, r0, ts, ws, k).r == r;
      forall s | k <= s < r.adjLen ensures FreshSlot(r, s) {
        assert FreshSlot(prev.r, s);
      }
    }
  }

  /** After the first `k` sides, `nadj` has grown by at least the number of
      slots filled, and by exactly that number when no side confirmed more
      than one candidate. */
  lemma {:induction false} SidesCount(proc: int, r0: ElemInfo, ts: seq<Tally>, ws: seq<real>, k: int)
    requires SlotsWellFormed(r0) && r0.adjLen == |ts| == |ws|
    requires forall s :: 0 <= s < r0.adjLen ==> FreshSlot(r0, s)
    requires forall s :: 0 <= s < |ts| && ts[s].count > 0 ==> ts[s].last != NoNeighbour
    requires 0 <= k <= |ts| && !SidesUpTo(proc, r0, ts, ws, k).failed
    ensures var r := SidesUpTo(proc, r0, ts, ws, k).r;
      && r.nadj - r0.nadj >= CountFilled(r.adj) - CountFilled(r0.adj)
      && ((forall s :: 0 <= s < k ==> ts[s].count <= 1) ==>
            r.nadj - r0.nadj == CountFilled(r.adj) - CountFilled(r0.adj))
  {
    if k > 0 {
      var prev := SidesUpTo(proc, r0, ts, ws, k - 1);
      assert !prev.failed;
      SidesCount(proc, r0, ts, ws, k - 1);
      SidesSlots(proc, r0, ts, ws, k - 1);
      ApplyTallyFacts(proc, k - 1, prev.r, ts[k - 1], ws[k - 1]);
      assert SidesUpTo(proc, r0, ts, ws, k).r == ApplyTally(proc, k - 1, prev.r, ts[k - 1], ws[k - 1]);
    }
  }

  /** After a successful build, an element of more than one node has one
      slot per side, each either empty or naming a confirmed neighbour;
      `nadj` grows by at least the number of filled slots, and by exactly
      that number when no side confirms more than one candidate. */
  lemma ElemSlots(c: Ctx, e: int, r0: ElemInfo)
    requires CtxValid(c) && 0 <= e < c.numElems && c.ebNnodes[Blk(c, e)] > 1
    requires !ElemAdjacency(c, e, r0).failed
    ensures HasSides(c, e)
    ensures var r := ElemAdjacency(c, e, r0).r;
      && SlotsWellFormed(r) && r.adjLen == c.t.numSides(Etype(c, e))
      && (forall s :: 0 <= s < r.adjLen ==> SlotFacts(c, e, s, r.adj[s], r.adjProc[s], r.edgeWgt.value[s]))
      && r.nadj >= r0.nadj + CountFilled(r.adj)
      && ((forall s :: 0 <= s < r.adjLen ==> SideTally(c, e, s).count <= 1) ==>
            r.nadj == r0.nadj + CountFilled(r.adj))
  {
    var nsides := c.t.numSides(Etype(c, e));
    var init := InitSlots(r0, nsides);
    var ts := SideTallies(c, e);
    var ws := SideWeights(c, e, nsides);
    forall s | 0 <= s < nsides
      ensures ts[s].count > 0 ==> ts[s].last in SideCands(c, e, s) && ts[s].last != e
      ensures ts[s].count > 0 ==> SideIdOf(c, ts[s].last, MirrorOf(c, e, s)) > 0
      ensures ts[s].count > 0 ==> ts[s].last != NoNeighbour
    {
      ValidateFacts(c, e, MirrorOf(c, e, s), SideCands(c, e, s));
    }
    CountFilledNone(nsides);
    SidesSlots(c.proc, init, ts, ws, nsides);
    SidesCount(c.proc, init, ts, ws, nsides);
  }

  /** Sides whose checks confirm nothing and never fail leave the record as it was. */
  lemma {:induction false} QuietSidesKeep(proc: int, r0: ElemInfo, ts: seq<Tally>, ws: seq<real>, k: int)
    requires SlotsWellFormed(r0) && r0.adjLen == |ts| == |ws| && 0 <= k <= |ts|
    requires forall s :: 0 <= s < |ts| ==> !ts[s].failed && ts[s].count == 0
    ensures SidesUpTo(proc, r0, ts, ws, k) == ElemOutcome(false, r0)
  {
    if k > 0 {
      QuietSidesKeep(proc, r0, ts, ws, k - 1);
    }
  }

  /** In one dimension no intersection is made, so no side gets a
      neighbour: the record keeps its fresh slots and its `nadj`. */
  lemma OneDimensionNoAdjacency(c: Ctx, e: int, r0: ElemInfo)
    requires CtxValid(c) && 0 <= e < c.numElems && HasSides(c, e) && c.numDims <= 1
    ensures ElemAdjacency(c, e, r0) == ElemOutcome(false, InitSlots(r0, c.t.numSides(Etype(c, e))))
  {
    var ts := SideTallies(c, e);
    forall s | 0 <= s < |ts| ensures !ts[s].failed && ts[s].count == 0 {
      assert SideCands(c, e, s) == [];
    }
    QuietSidesKeep(c.proc, InitSlots(r0, |ts|), ts, SideWeights(c, e, |ts|), |ts|);
  }

  /** A successful pass leaves every processed record as its own build
      made it, and the unused slots beyond `numElems` untouched. */
  lemma {:induction false} MeshPerElement(c: Ctx, elems0: seq<ElemInfo>, k: int)
    requires CtxValid(c) && 0 <= k <= c.numElems <= |elems0|
    requires !MeshAdjacency(c, elems0, k).failed
    ensures var out := MeshAdjacency(c, elems0, k).elems;
      && (forall e :: 0 <= e < k ==> !ElemAdjacency(c, e, elems0[e]).failed && out[e] == ElemAdjacency(c, e, elems0[e]).r)
      && (forall e :: k <= e < |elems0| ==> out[e] == elems0[e])
  {
    if k > 0 {
      MeshPerElement(c, elems0, k - 1);
    }
  }

  /** Examining sides writes only the adjacency slots and the count. */
  lemma {:induction false} SidesKeepIdentity(proc: int, r0: ElemInfo, ts: seq<Tally>, ws: seq<real>, k: int)
    requires SlotsWellFormed(r0) && r0.adjLen == |ts| == |ws| && 0 <= k <= |ts|
    ensures var r := SidesUpTo(proc, r0, ts, ws, k).r;
      r.elemBlk == r0.elemBlk && r.connect == r0.connect && r.globalID == r0.globalID
  {
    if k > 0 {
      SidesKeepIdentity(proc, r0, ts, ws, k - 1);
    }
  }

  /** Adjacency construction, failed or not, never changes an element's
      block, connectivity or global ID. */
  lemma {:induction false} MeshKeepsIdentity(c: Ctx, elems0: seq<ElemInfo>, k: int)
    requires CtxValid(c) && 0 <= k <= c.numElems <= |elems0|
    ensures var out := MeshAdjacency(c, elems0, k).elems;
      forall e :: 0 <= e < |elems0| ==>
        out[e].elemBlk == elems0[e].elemBlk && out[e].connect == elems0[e].connect && out[e].globalID == elems0[e].globalID
  {
    if k > 0 {
      MeshKeepsIdentity(c, elems0, k - 1);
      var prev := MeshAdjacency(c, elems0, k - 1);
      if !prev.failed {
        var r0 := prev.elems[k - 1];
        if c.ebNnodes[Blk(c, k - 1)] > 1 {
          var nsides := c.t.numSides(Etype(c, k - 1));
          if nsides >= 0 {
            SidesKeepIdentity(c.proc, InitSlots(r0, nsides), SideTallies(c, k - 1), SideWeights(c, k - 1, nsides), nsides);
          }
        }
      }
    }
  }

  /** Elements of at most one node (circles, spheres) are left out of the
      graph: element `e` of that kind keeps its record through the first
      `k` steps of the pass, failed or not. */
  lemma {:induction false} MeshSkipsPoint(c: Ctx, elems0: seq<ElemInfo>, k: int, e: int)
    requires CtxValid(c) && 0 <= k <= c.numElems <= |elems0|
    requires 0 <= e < c.numElems && c.ebNnodes[Blk(c, e)] <= 1
    ensures MeshAdjacency(c, elems0, k).elems[e] == elems0[e]
  {
    if k > 0 {
      MeshSkipsPoint(c, elems0, k - 1, e);
      var prev := MeshAdjacency(c, elems0, k - 1);
      if !prev.failed && e == k - 1 {
        assert ElemAdjacency(c, e, prev.elems[e]) == ElemOutcome(false, prev.elems[e]);
      }
    }
  }

  /** The connectivity of the local elements. */
  ghost function ShapeConns(c: Ctx): (r: seq<seq<int>>)
    requires 0 <= c.numElems <= |c.shapes|
    ensures |r| == c.numElems
  {
    seq(c.numElems, e requires 0 <= e < c.numElems => c.shapes[e].connect)
  }

  /** The node-to-element lists are those of the local connectivity. */
  ghost predicate ListsFromMesh(c: Ctx)
    requires 0 <= c.numElems <= |c.shapes| && |c.nsurnd| == |c.sur|
    requires forall n :: 0 <= n < |c.sur| ==> 0 <= c.nsurnd[n] <= |c.sur[n]|
  {
    forall n :: 0 <= n < |c.sur| ==> c.sur[n][..c.nsurnd[n]] == Surround.Incident(ShapeConns(c), n, c.numElems)
  }

  /** A candidate of side `s + 1` of `e` is an element whose connectivity
      names every side node that took part in the intersections. */
  lemma CandidateTouchesSide(c: Ctx, e: int, s: int, x: int)
    requires CtxValid(c) && ListsFromMesh(c) && 0 <= e < c.numElems && HasSides(c, e)
    requires 0 <= s < c.t.numSides(Etype(c, e))
    requires x in SideCands(c, e, s)
    ensures 0 <= x < c.numElems
    ensures var sn := SideNodesOf(c, e, s);
      forall j :: 0 <= j <= Steps(c.numDims, |sn|) ==> sn[j] in c.shapes[x].connect
  {
    var sn := SideNodesOf(c, e, s);
    var lists := SideLists(c, sn);
    var steps := Steps(c.numDims, |sn|);
    forall j | 0 <= j <= steps ensures sn[j] in c.shapes[x].connect {
      CommonMembership(lists, steps, x);
      Surround.IncidentMembership(ShapeConns(c), sn[j], c.numElems, x);
    }
  }

  /** An element always survives the intersections of its own side, so a
      side with candidates lists the element itself and, beside it, at
      least one other element. */
  lemma OwnElementAmongCandidates(c: Ctx, e: int, s: int)
    requires CtxValid(c) && ListsFromMesh(c) && 0 <= e < c.numElems && HasSides(c, e)
    requires 0 <= s < c.t.numSides(Etype(c, e))
    requires SideCands(c, e, s) != []
    ensures e in SideCands(c, e, s)
    ensures exists k :: 0 <= k < |SideCands(c, e, s)| && SideCands(c, e, s)[k] != e
  {
    var sn := SideNodesOf(c, e, s);
    var lists := SideLists(c, sn);
    var steps := Steps(c.numDims, |sn|);
    var cands := SideCands(c, e, s);
    forall j | 0 <= j <= steps ensures e in lists[j] {
      Surround.IncidentMembership(ShapeConns(c), sn[j], c.numElems, e);
    }
    CommonMembership(lists, steps, e);
    CommonIncreasing(lists, steps);
    assert cands[0] != e || cands[1] != e by {
      assert cands[0] < cands[1];
    }
  }

  /** The context the mesh and the node-to-element lists give. */
  function MeshCtx(mesh: Mesh, proc: int, sur: seq<seq<int>>, nsurnd: seq<int>, maxNsur: int, t: ElemTable): Ctx
    reads mesh, mesh.elements
  {
    Ctx(proc, mesh.numDims, mesh.numElems, mesh.ebEtypes, mesh.ebNnodes,
        Shapes(mesh.elements[..]), sur, nsurnd, maxNsur, t)
  }

  /** Builds the adjacency of every local element, in element order;
      stops at the first element whose type or side lookup fails. */
  method FindAdjacency(mesh: Mesh, proc: int, sur: seq<seq<int>>, nsurnd: seq<int>, maxNsur: int, t: ElemTable)
      returns (ok: bool)
    requires CtxValid(MeshCtx(mesh, proc, sur, nsurnd, maxNsur, t))
    requires mesh.numElems <= mesh.elements.Length
    modifies mesh.elements
    ensures var out := MeshAdjacency(old(MeshCtx(mesh, proc, sur, nsurnd, maxNsur, t)), old(mesh.elements[..]), old(mesh.numElems));
      ok == !out.failed && mesh.elements[..] == out.elems
  {
    var c := MeshCtx(mesh, proc, sur, nsurnd, maxNsur, t);
    var hold := new int[maxNsur];
    ok := AdjacencyPass(c, mesh.elements, hold);
  }
}
