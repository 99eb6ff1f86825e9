/** What filling in the remote side slots guarantees, stated on the fold
    `ApplyEntries` that the map-processing loops are proved to follow. */
module CommMapFacts {
  import opened MeshData
  import opened ElemTypes
  import opened CommMap

  /** One step of the fold, spelled out. */
  lemma StepOf(elems0: seq<ElemInfo>, ebEtypes: seq<int>, t: ElemTable, en: Entries, k: int)
    requires EntriesReady(elems0, |ebEtypes|, en) && 0 < k <= |en.elem|
    requires !ApplyEntries(elems0, ebEtypes, t, en, k - 1).failed
    ensures EntryReady(elems0, |ebEtypes|, en, k - 1)
    ensures var prev := ApplyEntries(elems0, ebEtypes, t, en, k - 1).elems;
      var loc := en.elem[k - 1];
      && TargetReady(prev[loc], |ebEtypes|, en.side[k - 1])
      && ApplyEntries(elems0, ebEtypes, t, en, k)
         == CommOutcome(prev[loc].nadj + 1 > prev[loc].adjLen,
                        prev[loc := ApplyEntry(prev[loc], en.side[k - 1], en.neigh[k - 1], en.mapId[k - 1],
                                               SideWeight(ebEtypes, t, elems0[loc].elemBlk, en.side[k - 1])).r])
  {
    assert EntryReady(elems0, |ebEtypes|, en, k - 1);
  }

  /** A pass that has not failed after `k` entries has not failed before. */
  lemma {:induction false} NotFailedBefore(elems0: seq<ElemInfo>, ebEtypes: seq<int>, t: ElemTable, en: Entries, j: int, k: int)
    requires EntriesReady(elems0, |ebEtypes|, en) && 0 <= j <= k <= |en.elem|
    requires !ApplyEntries(elems0, ebEtypes, t, en, k).failed
    ensures !ApplyEntries(elems0, ebEtypes, t, en, j).failed
  {
    if ApplyEntries(elems0, ebEtypes, t, en, j).failed {
      EntriesFailedStay(elems0, ebEtypes, t, en, j, k);
    }
  }

  /** Until the pass fails, every element's counter has risen once per
      entry naming it, and an element any entry named holds no more
      neighbours than it has sides. */
  lemma {:induction false} CountsRise(elems0: seq<ElemInfo>, ebEtypes: seq<int>, t: ElemTable, en: Entries, k: int)
    requires EntriesReady(elems0, |ebEtypes|, en) && 0 <= k <= |en.elem|
    requires !ApplyEntries(elems0, ebEtypes, t, en, k).failed
    ensures forall e :: 0 <= e < |elems0| ==>
      ApplyEntries(elems0, ebEtypes, t, en, k).elems[e].nadj == elems0[e].nadj + multiset(en.elem[..k])[e]
    ensures forall e :: 0 <= e < |elems0| && e in en.elem[..k] ==>
      ApplyEntries(elems0, ebEtypes, t, en, k).elems[e].nadj <= elems0[e].adjLen
  {
    if k > 0 {
      NotFailedBefore(elems0, ebEtypes, t, en, k - 1, k);
      CountsRise(elems0, ebEtypes, t, en, k - 1);
      StepOf(elems0, ebEtypes, t, en, k);
      assert en.elem[..k] == en.elem[..k - 1] + [en.elem[k - 1]];
    }
  }

  /** A failed pass has a first failing entry. */
  lemma {:induction false} FirstFailure(elems0: seq<ElemInfo>, ebEtypes: seq<int>, t: ElemTable, en: Entries, k: int) returns (j: int)
    requires EntriesReady(elems0, |ebEtypes|, en) && 0 <= k <= |en.elem|
    requires ApplyEntries(elems0, ebEtypes, t, en, k).failed
    ensures 0 <= j < k
    ensures !ApplyEntries(elems0, ebEtypes, t, en, j).failed && ApplyEntries(elems0, ebEtypes, t, en, j + 1).failed
  {
    if ApplyEntries(elems0, ebEtypes, t, en, k - 1).failed {
      j := FirstFailure(elems0, ebEtypes, t, en, k - 1);
    } else {
      j := k - 1;
    }
  }

  /** The pass over all entries fails exactly when some element is named
      by more entries than it has sides left: its counter plus the number
      of entries naming it exceeds its side count. */
  lemma FailsIffOverfull(elems0: seq<ElemInfo>, ebEtypes: seq<int>, t: ElemTable, en: Entries)
    requires EntriesReady(elems0, |ebEtypes|, en)
    ensures ApplyEntries(elems0, ebEtypes, t, en, |en.elem|).failed <==>
      exists e :: 0 <= e < |elems0| && e in en.elem && elems0[e].nadj + multiset(en.elem)[e] > elems0[e].adjLen
  {
    var n := |en.elem|;
    assert en.elem[..n] == en.elem;
    if ApplyEntries(elems0, ebEtypes, t, en, n).failed {
      var j := FirstFailure(elems0, ebEtypes, t, en, n);
      CountsRise(elems0, ebEtypes, t, en, j);
      StepOf(elems0, ebEtypes, t, en, j + 1);
      var loc := en.elem[j];
      assert en.elem == en.elem[..j] + [loc] + en.elem[j + 1..];
      assert multiset(en.elem)[loc] >= multiset(en.elem[..j])[loc] + 1;
      assert elems0[loc].nadj + multiset(en.elem)[loc] > elems0[loc].adjLen;
    } else {
      CountsRise(elems0, ebEtypes, t, en, n);
    }
  }

  /** An element no entry names is left exactly as it was. */
  lemma {:induction false} UnnamedUnchanged(elems0: seq<ElemInfo>, ebEtypes: seq<int>, t: ElemTable, en: Entries, k: int, e: int)
    requires EntriesReady(elems0, |ebEtypes|, en) && 0 <= k <= |en.elem|
    requires 0 <= e < |elems0| && e !in en.elem[..k]
    ensures ApplyEntries(elems0, ebEtypes, t, en, k).elems[e] == elems0[e]
  {
    if k > 0 {
      assert en.elem[..k] == en.elem[..k - 1] + [en.elem[k - 1]];
      UnnamedUnchanged(elems0, ebEtypes, t, en, k - 1, e);
      if !ApplyEntries(elems0, ebEtypes, t, en, k - 1).failed {
        StepOf(elems0, ebEtypes, t, en, k);
      }
    }
  }

  /** A side slot: its neighbour, the neighbour's process and its weight. */
  ghost function Slot(r: ElemInfo, q: int): (int, int, real)
    requires SlotsWellFormed(r) && 0 <= q < r.adjLen
  {
    (r.adj[q], r.adjProc[q], r.edgeWgt.value[q])
  }

  /** Entry `i` names side slot `q` (0-based) of element `e`. */
  ghost predicate Names(en: Entries, i: int, e: int, q: int)
    requires 0 <= i < |en.elem| && |en.side| == |en.elem|
  {
    en.elem[i] == e && en.side[i] == q + 1
  }

  /** A slot that entries `j..k` do not name keeps its contents across
      them, whether or not the pass fails. */
  lemma {:induction false} SlotKept(elems0: seq<ElemInfo>, ebEtypes: seq<int>, t: ElemTable, en: Entries,
                                    j: int, k: int, e: int, q: int)
    requires EntriesReady(elems0, |ebEtypes|, en) && 0 <= j <= k <= |en.elem|
    requires 0 <= e < |elems0| && SlotsWellFormed(elems0[e]) && 0 <= q < elems0[e].adjLen
    requires forall i :: j <= i < k ==> !Names(en, i, e, q)
    ensures Slot(ApplyEntries(elems0, ebEtypes, t, en, k).elems[e], q) == Slot(ApplyEntries(elems0, ebEtypes, t, en, j).elems[e], q)
  {
    if j < k {
      SlotKept(elems0, ebEtypes, t, en, j, k - 1, e, q);
      if !ApplyEntries(elems0, ebEtypes, t, en, k - 1).failed {
        StepOf(elems0, ebEtypes, t, en, k);
        assert !Names(en, k - 1, e, q);
      }
    }
  }

  /** Right after entry `i`, if it did not fail, its slot holds its
      neighbour, its map id and the side's weight. */
  lemma SlotJustWritten(elems0: seq<ElemInfo>, ebEtypes: seq<int>, t: ElemTable, en: Entries, i: int)
    requires EntriesReady(elems0, |ebEtypes|, en) && 0 <= i < |en.elem|
    requires !ApplyEntries(elems0, ebEtypes, t, en, i + 1).failed
    ensures EntryReady(elems0, |ebEtypes|, en, i) && 1 <= en.side[i] <= elems0[en.elem[i]].adjLen
    ensures Slot(ApplyEntries(elems0, ebEtypes, t, en, i + 1).elems[en.elem[i]], en.side[i] - 1)
      == (en.neigh[i], en.mapId[i], SideWeight(ebEtypes, t, elems0[en.elem[i]].elemBlk, en.side[i]))
  {
    NotFailedBefore(elems0, ebEtypes, t, en, i, i + 1);
    StepOf(elems0, ebEtypes, t, en, i + 1);
  }

  /** No entry after `i` names the slot `i` names. */
  lemma LaterEntriesMiss(en: Entries, i: int, e: int, q: int)
    requires 0 <= i < |en.elem| == |en.side| && e == en.elem[i] && q == en.side[i] - 1
    requires forall j :: i < j < |en.elem| ==> en.elem[j] != en.elem[i] || en.side[j] != en.side[i]
    ensures forall j :: i + 1 <= j < |en.elem| ==> !Names(en, j, e, q)
  {
  }

  /** After a pass that did not fail, the slot an entry names holds that
      entry's neighbour, its map id as process, and the side's node count
      as weight, unless a later entry names the same slot. */
  lemma SlotWritten(elems0: seq<ElemInfo>, ebEtypes: seq<int>, t: ElemTable, en: Entries, i: int)
    requires EntriesReady(elems0, |ebEtypes|, en) && 0 <= i < |en.elem|
    requires !ApplyEntries(elems0, ebEtypes, t, en, |en.elem|).failed
    requires forall j :: i < j < |en.elem| ==> en.elem[j] != en.elem[i] || en.side[j] != en.side[i]
    ensures EntryReady(elems0, |ebEtypes|, en, i) && 1 <= en.side[i] <= elems0[en.elem[i]].adjLen
    ensures Slot(ApplyEntries(elems0, ebEtypes, t, en, |en.elem|).elems[en.elem[i]], en.side[i] - 1)
      == (en.neigh[i], en.mapId[i], SideWeight(ebEtypes, t, elems0[en.elem[i]].elemBlk, en.side[i]))
  {
    NotFailedBefore(elems0, ebEtypes, t, en, i + 1, |en.elem|);
    SlotJustWritten(elems0, ebEtypes, t, en, i);
    var e, q := en.elem[i], en.side[i] - 1;
    LaterEntriesMiss(en, i, e, q);
    SlotKept(elems0, ebEtypes, t, en, i + 1, |en.elem|, e, q);
  }

  /** Entry `i` fills a slot that was empty, with a real neighbour. */
  ghost predicate FillsEmptySlot(elems0: seq<ElemInfo>, nblocks: int, en: Entries, i: int)
  {
    && EntryReady(elems0, nblocks, en, i) && i < |en.neigh|
    && en.neigh[i] != NoNeighbour
    && (elems0[en.elem[i]].adjLen > 0 ==> elems0[en.elem[i]].adj[en.side[i] - 1] == NoNeighbour)
  }

  /** No two entries name the same side of the same element. */
  ghost predicate DistinctSlots(en: Entries)
  {
    forall i, j :: 0 <= i < j < |en.elem| && j < |en.side| ==> en.elem[i] != en.elem[j] || en.side[i] != en.side[j]
  }

  /** When the entries name distinct, still empty sides with real
      neighbours, a pass that does not fail keeps every element's counter
      equal to its number of filled slots. */
  lemma {:induction false} CountsStayFilled(elems0: seq<ElemInfo>, ebEtypes: seq<int>, t: ElemTable, en: Entries, k: int)
    requires EntriesReady(elems0, |ebEtypes|, en) && 0 <= k <= |en.elem|
    requires forall i :: 0 <= i < |en.elem| ==> FillsEmptySlot(elems0, |ebEtypes|, en, i)
    requires DistinctSlots(en)
    requires !ApplyEntries(elems0, ebEtypes, t, en, k).failed
    ensures forall e :: 0 <= e < |elems0| && Conserved(elems0[e]) ==> Conserved(ApplyEntries(elems0, ebEtypes, t, en, k).elems[e])
  {
    if k > 0 {
      NotFailedBefore(elems0, ebEtypes, t, en, k - 1, k);
      CountsStayFilled(elems0, ebEtypes, t, en, k - 1);
      StepOf(elems0, ebEtypes, t, en, k);
      if Conserved(elems0[en.elem[k - 1]]) {
        FillKeepsCount(elems0, ebEtypes, t, en, k);
      }
    }
  }

  /** The element entry `k - 1` names stays conserved across that entry. */
  lemma FillKeepsCount(elems0: seq<ElemInfo>, ebEtypes: seq<int>, t: ElemTable, en: Entries, k: int)
    requires EntriesReady(elems0, |ebEtypes|, en) && 0 < k <= |en.elem|
    requires forall i :: 0 <= i < |en.elem| ==> FillsEmptySlot(elems0, |ebEtypes|, en, i)
    requires DistinctSlots(en)
    requires !ApplyEntries(elems0, ebEtypes, t, en, k).failed
    requires !ApplyEntries(elems0, ebEtypes, t, en, k - 1).failed
    requires EntryReady(elems0, |ebEtypes|, en, k - 1) && Conserved(elems0[en.elem[k - 1]])
    requires Conserved(ApplyEntries(elems0, ebEtypes, t, en, k - 1).elems[en.elem[k - 1]])
    ensures Conserved(ApplyEntries(elems0, ebEtypes, t, en, k).elems[en.elem[k - 1]])
  {
    StepOf(elems0, ebEtypes, t, en, k);
    var prev := ApplyEntries(elems0, ebEtypes, t, en, k - 1).elems;
    var loc, q := en.elem[k - 1], en.side[k - 1] - 1;
    assert FillsEmptySlot(elems0, |ebEtypes|, en, k - 1);
    forall i | 0 <= i < k - 1 ensures !Names(en, i, loc, q) { }
    SlotKept(elems0, ebEtypes, t, en, 0, k - 1, loc, q);
    assert prev[loc].adj[q] == NoNeighbour;
    CountFilledFill(prev[loc].adj, q, en.neigh[k - 1]);
  }
}
