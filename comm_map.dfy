/** The sequential parts of reading the elemental communication maps:
    border flags, conversion of the maps' element ids, and filling in the
    side slots whose neighbour lives on another process. */
module CommMap {
  import opened MeshData
  import opened ElemTypes
  import opened SeqUtil

  /** `elems` with the border flag set on every element whose 1-based
      number is listed in `borElem`, and nothing else changed. */
  ghost function Flagged(elems: seq<ElemInfo>, borElem: seq<int>): (r: seq<ElemInfo>)
    ensures |r| == |elems|
  {
    seq(|elems|, e requires 0 <= e < |elems| => if e + 1 in borElem then elems[e].(border := 1) else elems[e])
  }

  /** Marks the border elements named (1-based) in `borElem`. */
  method FlagBorder(elements: array<ElemInfo>, borElem: seq<int>)
    requires forall i :: 0 <= i < |borElem| ==> 1 <= borElem[i] <= elements.Length
    modifies elements
    ensures elements[..] == Flagged(old(elements[..]), borElem)
  {
    ghost var elems0 := elements[..];
    var ielem := 0;
    while ielem < |borElem|
      invariant 0 <= ielem <= |borElem|
      invariant elements[..] == Flagged(elems0, borElem[..ielem])
    {
      assert borElem[..ielem + 1] == borElem[..ielem] + [borElem[ielem]];
      elements[borElem[ielem] - 1] := elements[borElem[ielem] - 1].(border := 1);
      ielem := ielem + 1;
    }
    assert borElem[..ielem] == borElem;
  }

  /** Flagging border elements leaves everything else of every record as
      it was, and flagging twice is flagging once. */
  lemma FlaggedOnlyBorder(elems: seq<ElemInfo>, borElem: seq<int>)
    ensures forall e :: 0 <= e < |elems| ==> Flagged(elems, borElem)[e].(border := elems[e].border) == elems[e]
    ensures forall e :: 0 <= e < |elems| && e + 1 in borElem ==> Flagged(elems, borElem)[e].border == 1
    ensures Flagged(Flagged(elems, borElem), borElem) == Flagged(elems, borElem)
  {
  }

  /** Converts the maps' element ids to 0-based local numbers in place and
      returns, per entry, the global id of its element: the list sent to
      the neighbouring process. */
  method LocalizeCommElems(mesh: Mesh) returns (procIds: seq<int>)
    requires forall i :: 0 <= i < |mesh.ecmapElemids| ==> 1 <= mesh.ecmapElemids[i] <= mesh.elements.Length
    modifies mesh`ecmapElemids
    ensures mesh.ecmapElemids == Decremented(old(mesh.ecmapElemids))
    ensures |procIds| == |mesh.ecmapElemids|
    ensures forall i :: 0 <= i < |procIds| ==> procIds[i] == mesh.elements[old(mesh.ecmapElemids)[i] - 1].globalID
  {
    ghost var ids0 := mesh.ecmapElemids;
    procIds := [];
    var ielem := 0;
    while ielem < |mesh.ecmapElemids|
      invariant 0 <= ielem <= |ids0| == |mesh.ecmapElemids| && |procIds| == ielem
      invariant forall i :: 0 <= i < |ids0| ==> mesh.ecmapElemids[i] == ids0[i] - (if i < ielem then 1 else 0)
      invariant forall i :: 0 <= i < ielem ==> procIds[i] == mesh.elements[ids0[i] - 1].globalID
    {
      mesh.ecmapElemids := mesh.ecmapElemids[ielem := mesh.ecmapElemids[ielem] - 1];
      procIds := procIds + [mesh.elements[mesh.ecmapElemids[ielem]].globalID];
      ielem := ielem + 1;
    }
  }

  /** The combined length of all maps. */
  method TotalLength(cnt: seq<int>) returns (maxLen: int)
    ensures maxLen == Total(cnt, |cnt|)
  {
    maxLen := 0;
    var iMap := 0;
    while iMap < |cnt|
      invariant 0 <= iMap <= |cnt| && maxLen == Total(cnt, iMap)
    {
      maxLen := maxLen + cnt[iMap];
      iMap := iMap + 1;
    }
  }

  ghost predicate CountsValid(ids: seq<int>, cnt: seq<int>)
  {
    |ids| == |cnt| && forall m :: 0 <= m < |cnt| ==> 0 <= cnt[m]
  }

  /** The id of the map each entry of the first `k` concatenated maps
      belongs to; a map's id is the process it connects to. */
  function MapIds(ids: seq<int>, cnt: seq<int>, k: int): (r: seq<int>)
    requires CountsValid(ids, cnt) && 0 <= k <= |cnt|
    ensures |r| == Total(cnt, k)
  {
    if k == 0 then [] else MapIds(ids, cnt, k - 1) + seq(cnt[k - 1], _ => ids[k - 1])
  }

  /** Entry `i` of map `m` sits at offset `Total(cnt, m) + i`. */
  lemma {:induction false} MapIdAt(ids: seq<int>, cnt: seq<int>, m: int, i: int, k: int)
    requires CountsValid(ids, cnt) && 0 <= m < k <= |cnt| && 0 <= i < cnt[m]
    ensures 0 <= Total(cnt, m) + i < Total(cnt, k)
    ensures MapIds(ids, cnt, k)[Total(cnt, m) + i] == ids[m]
  {
    TotalGrows(cnt, 0, m);
    if k > m + 1 {
      MapIdAt(ids, cnt, m, i, k - 1);
    }
  }

  /** The entries of the concatenated maps: local element, side (1-based),
      neighbour's global id, and map id. */
  datatype Entries = Entries(elem: seq<int>, side: seq<int>, neigh: seq<int>, mapId: seq<int>)

  /** An element an entry names can take the entry: its slots agree with
      its side count, its counter is not negative, its block is known, and
      the side is one of its own whenever it has slots. */
  ghost predicate TargetReady(r: ElemInfo, nblocks: int, side: int)
  {
    && SlotsWellFormed(r) && 0 <= r.nadj && 0 <= r.elemBlk < nblocks
    && (r.adjLen > 0 ==> 1 <= side <= r.adjLen)
  }

  /** Entry `i` names an element of `elems` that can take it. */
  ghost predicate EntryReady(elems: seq<ElemInfo>, nblocks: int, en: Entries, i: int)
  {
    && 0 <= i < |en.elem| && i < |en.side|
    && 0 <= en.elem[i] < |elems| && TargetReady(elems[en.elem[i]], nblocks, en.side[i])
  }

  ghost predicate EntriesReady(elems: seq<ElemInfo>, nblocks: int, en: Entries)
  {
    && |en.side| == |en.elem| && |en.neigh| == |en.elem| && |en.mapId| == |en.elem|
    && forall i :: 0 <= i < |en.elem| ==> EntryReady(elems, nblocks, en, i)
  }

  /** Processing entries only raises counters and fills slots: the slot
      layout and block of every element stay. */
  ghost predicate LayoutKept(e0: seq<ElemInfo>, e1: seq<ElemInfo>)
  {
    && |e1| == |e0|
    && forall e {:trigger e1[e]} :: 0 <= e < |e0| ==>
      && e1[e].adjLen == e0[e].adjLen && e1[e].elemBlk == e0[e].elemBlk
      && (SlotsWellFormed(e0[e]) ==> SlotsWellFormed(e1[e]))
      && e0[e].nadj <= e1[e].nadj
  }

  datatype CommOutcome = CommOutcome(failed: bool, elems: seq<ElemInfo>)

  /** A record after an entry names it, and whether its counter then
      exceeds its side count. */
  datatype EntryStep = EntryStep(overflow: bool, r: ElemInfo)

  /** One entry on its element: the counter rises; if it then exceeds the
      side count the pass fails, otherwise the side's slot takes the
      neighbour, the map id as its process, and weight `w`. */
  ghost function ApplyEntry(r0: ElemInfo, side: int, neigh: int, mapId: int, w: real): (o: EntryStep)
    requires SlotsWellFormed(r0) && 0 <= r0.nadj && (r0.adjLen > 0 ==> 1 <= side <= r0.adjLen)
    ensures SlotsWellFormed(o.r) && o.r.nadj == r0.nadj + 1
    ensures o.r.adjLen == r0.adjLen && o.r.elemBlk == r0.elemBlk
  {
    var r := r0.(nadj := r0.nadj + 1);
    if r.nadj > r.adjLen then EntryStep(true, r)
    else EntryStep(false, r.(adj := r.adj[side - 1 := neigh],
                             adjProc := r.adjProc[side - 1 := mapId],
                             edgeWgt := Some(r.edgeWgt.value[side - 1 := w])))
  }

  /** The weight of side `side` (1-based) of an element of block `blk`:
      the number of nodes on that side. */
  function SideWeight(ebEtypes: seq<int>, t: ElemTable, blk: int, side: int): real
    requires 0 <= blk < |ebEtypes|
  {
    t.sideNodeCount(ebEtypes[blk], side) as real
  }

  /** The records after the first `k` entries; the pass stops at the first
      entry that fails. */
  ghost function ApplyEntries(elems0: seq<ElemInfo>, ebEtypes: seq<int>, t: ElemTable, en: Entries, k: int): (o: CommOutcome)
    requires EntriesReady(elems0, |ebEtypes|, en) && 0 <= k <= |en.elem|
    ensures LayoutKept(elems0, o.elems)
  {
    if k == 0 then CommOutcome(false, elems0)
    else
      var prev := ApplyEntries(elems0, ebEtypes, t, en, k - 1);
      if prev.failed then prev
      else
        assert EntryReady(elems0, |ebEtypes|, en, k - 1);
        var loc := en.elem[k - 1];
        var r := prev.elems[loc];
        var step := ApplyEntry(r, en.side[k - 1], en.neigh[k - 1], en.mapId[k - 1],
                               SideWeight(ebEtypes, t, r.elemBlk, en.side[k - 1]));
        CommOutcome(step.overflow, prev.elems[loc := step.r])
  }

  lemma {:induction false} EntriesFailedStay(elems0: seq<ElemInfo>, ebEtypes: seq<int>, t: ElemTable, en: Entries, j: int, k: int)
    requires EntriesReady(elems0, |ebEtypes|, en) && 0 <= j <= k <= |en.elem|
    requires ApplyEntries(elems0, ebEtypes, t, en, j).failed
    ensures ApplyEntries(elems0, ebEtypes, t, en, k) == ApplyEntries(elems0, ebEtypes, t, en, j)
  {
    if j < k {
      EntriesFailedStay(elems0, ebEtypes, t, en, j, k - 1);
    }
  }

  /** The communication maps as read: per map its id (the process it
      connects to) and size, and per entry of the concatenated maps the
      local element (0-based once converted), the side (1-based), and the
      neighbour's global id received from the other process. */
  datatype CommMaps = CommMaps(ids: seq<int>, cnt: seq<int>, elemids: seq<int>, sideids: seq<int>, neighids: seq<int>)

  /** The maps' entries, each tagged with the id of its map. */
  ghost function MapEntries(maps: CommMaps): Entries
    requires CountsValid(maps.ids, maps.cnt)
  {
    Entries(maps.elemids, maps.sideids, maps.neighids, MapIds(maps.ids, maps.cnt, |maps.cnt|))
  }

  /** The maps are consistent with the element records `elems0`. */
  ghost predicate MapsReady(maps: CommMaps, nblocks: int, elems0: seq<ElemInfo>)
  {
    && CountsValid(maps.ids, maps.cnt)
    && |maps.elemids| == Total(maps.cnt, |maps.cnt|)
    && EntriesReady(elems0, nblocks, MapEntries(maps))
  }

  /** `en` holds the maps' entries and tags `lo..hi` with map id `id`. */
  ghost predicate EntriesOf(maps: CommMaps, en: Entries, lo: int, hi: int, id: int)
  {
    && en.elem == maps.elemids && en.side == maps.sideids && en.neigh == maps.neighids
    && 0 <= lo <= hi <= |en.mapId|
    && forall i :: lo <= i < hi ==> TagAt(en, i, id)
  }

  ghost predicate TagAt(en: Entries, i: int, id: int)
  {
    0 <= i < |en.mapId| && en.mapId[i] == id
  }

  /** Processes entry `index`, which belongs to map `iMap`. */
  method ApplyEntryAt(elements: array<ElemInfo>, ebEtypes: seq<int>, t: ElemTable, maps: CommMaps,
                      ghost en: Entries, ghost elems0: seq<ElemInfo>, iMap: int, index: int) returns (ok: bool)
    requires EntriesReady(elems0, |ebEtypes|, en) && |elems0| == elements.Length
    requires 0 <= iMap < |maps.ids| && EntriesOf(maps, en, index, index + 1, maps.ids[iMap])
    requires ApplyEntries(elems0, ebEtypes, t, en, index) == CommOutcome(false, elements[..])
    modifies elements
    ensures ApplyEntries(elems0, ebEtypes, t, en, index + 1) == CommOutcome(!ok, elements[..])
  {
    assert TagAt(en, index, maps.ids[iMap]) && EntryReady(elems0, |ebEtypes|, en, index);
    var locElem := maps.elemids[index];
    assert TargetReady(elements[locElem], |ebEtypes|, maps.sideids[index]);
    var iblk := elements[locElem].elemBlk;
    var etype := ebEtypes[iblk];
    elements[locElem] := elements[locElem].(nadj := elements[locElem].nadj + 1);
    if elements[locElem].nadj > elements[locElem].adjLen {
      return false;
    }
    var sid := maps.sideids[index] - 1;
    var r := elements[locElem];
    elements[locElem] := r.(adj := r.adj[sid := maps.neighids[index]],
                            adjProc := r.adjProc[sid := maps.ids[iMap]],
                            edgeWgt := Some(r.edgeWgt.value[sid := t.sideNodeCount(etype, maps.sideids[index]) as real]));
    assert ebEtypes[iblk] == etype;
    return true;
  }

  /** Processes the entries of map `iMap`, which start at `offset`. On
      failure the pass is over: later entries are not processed. */
  method ApplyMap(elements: array<ElemInfo>, ebEtypes: seq<int>, t: ElemTable, maps: CommMaps,
                  ghost en: Entries, ghost elems0: seq<ElemInfo>, iMap: int, offset: int) returns (ok: bool)
    requires EntriesReady(elems0, |ebEtypes|, en) && |elems0| == elements.Length
    requires 0 <= iMap < |maps.ids| && iMap < |maps.cnt| && 0 <= offset
    requires EntriesOf(maps, en, offset, offset + maps.cnt[iMap], maps.ids[iMap])
    requires ApplyEntries(elems0, ebEtypes, t, en, offset) == CommOutcome(false, elements[..])
    modifies elements
    ensures ok ==> ApplyEntries(elems0, ebEtypes, t, en, offset + maps.cnt[iMap]) == CommOutcome(false, elements[..])
    ensures !ok ==> ApplyEntries(elems0, ebEtypes, t, en, |en.elem|) == CommOutcome(true, elements[..])
  {
    var ielem := 0;
    while ielem < maps.cnt[iMap]
      invariant 0 <= ielem <= maps.cnt[iMap]
      invariant ApplyEntries(elems0, ebEtypes, t, en, offset + ielem) == CommOutcome(false, elements[..])
    {
      ok := ApplyEntryAt(elements, ebEtypes, t, maps, en, elems0, iMap, offset + ielem);
      if !ok {
        EntriesFailedStay(elems0, ebEtypes, t, en, offset + ielem + 1, |en.elem|);
        return;
      }
      ielem := ielem + 1;
    }
    return true;
  }

  /** The entries of map `iMap` carry its id. */
  lemma MapTagged(maps: CommMaps, iMap: int)
    requires CountsValid(maps.ids, maps.cnt) && 0 <= iMap < |maps.cnt|
    requires |maps.sideids| == |maps.elemids| && |maps.neighids| == |maps.elemids|
    requires |maps.elemids| == Total(maps.cnt, |maps.cnt|)
    ensures 0 <= Total(maps.cnt, iMap)
    ensures EntriesOf(maps, MapEntries(maps), Total(maps.cnt, iMap), Total(maps.cnt, iMap) + maps.cnt[iMap], maps.ids[iMap])
  {
    var offset := Total(maps.cnt, iMap);
    TotalGrows(maps.cnt, 0, iMap);
    TotalGrows(maps.cnt, iMap + 1, |maps.cnt|);
    forall i | offset <= i < offset + maps.cnt[iMap]
      ensures TagAt(MapEntries(maps), i, maps.ids[iMap])
    {
      MapIdAt(maps.ids, maps.cnt, iMap, i - offset, |maps.cnt|);
    }
  }

  /** The communication maps stored in the mesh. */
  function MeshMaps(mesh: Mesh): CommMaps
    reads mesh
  {
    CommMaps(mesh.ecmapId, mesh.ecmapCnt, mesh.ecmapElemids, mesh.ecmapSideids, mesh.ecmapNeighids)
  }

  /** Runs through the maps in order, each from its offset in the
      concatenated entries. */
  method ApplyAllMaps(elements: array<ElemInfo>, ebEtypes: seq<int>, t: ElemTable, maps: CommMaps) returns (ok: bool)
    requires MapsReady(maps, |ebEtypes|, elements[..])
    modifies elements
    ensures ApplyEntries(old(elements[..]), ebEtypes, t, MapEntries(maps), |maps.elemids|) == CommOutcome(!ok, elements[..])
  {
    ghost var elems0 := elements[..];
    ghost var en := MapEntries(maps);
    var offset := 0;
    var iMap := 0;
    while iMap < |maps.cnt|
      invariant 0 <= iMap <= |maps.cnt| && offset == Total(maps.cnt, iMap)
      invariant 0 <= offset <= |maps.elemids|
      invariant ApplyEntries(elems0, ebEtypes, t, en, offset) == CommOutcome(false, elements[..])
    {
      MapTagged(maps, iMap);
      ok := ApplyMap(elements, ebEtypes, t, maps, en, elems0, iMap, offset);
      if !ok {
        return;
      }
      offset := offset + maps.cnt[iMap];
      iMap := iMap + 1;
    }
    ok := true;
  }

  /** Writes the remote neighbours received for every map into the side
      slots of the local elements, map after map; fails as soon as an
      element would hold more neighbours than it has sides. */
  method ApplyCommMaps(mesh: Mesh, t: ElemTable) returns (ok: bool)
    requires MapsReady(MeshMaps(mesh), |mesh.ebEtypes|, mesh.elements[..])
    modifies mesh.elements
    ensures ApplyEntries(old(mesh.elements[..]), mesh.ebEtypes, t, MapEntries(MeshMaps(mesh)), |mesh.ecmapElemids|)
      == CommOutcome(!ok, mesh.elements[..])
  {
    ok := ApplyAllMaps(mesh.elements, mesh.ebEtypes, t, MeshMaps(mesh));
  }

  /** Border flags play no part in whether an element can take an entry. */
  lemma FlaggedKeepsReady(elems: seq<ElemInfo>, borElem: seq<int>, nblocks: int, en: Entries)
    requires EntriesReady(elems, nblocks, en)
    ensures EntriesReady(Flagged(elems, borElem), nblocks, en)
  {
    forall i | 0 <= i < |en.elem|
      ensures EntryReady(Flagged(elems, borElem), nblocks, en, i)
    {
      assert EntryReady(elems, nblocks, en, i);
    }
  }

  /** The whole pass over the entries `en`, started from `elems0`, ends
      with outcome `ok` and records `cur`. */
  ghost predicate PassEnds(elems0: seq<ElemInfo>, ebEtypes: seq<int>, t: ElemTable, en: Entries, ok: bool, cur: seq<ElemInfo>)
  {
    && EntriesReady(elems0, |ebEtypes|, en)
    && ApplyEntries(elems0, ebEtypes, t, en, |en.elem|) == CommOutcome(!ok, cur)
  }

  /** The sequential part of reading the communication maps: flags the
      border elements, stores the maps read (`ids`, `cnt`, and per entry
      the 1-based element and side), converts their element numbers,
      returns the global ids sent to the neighbours, stores the
      neighbours' global ids received in return, and fills in the
      remote side slots. */
  method ReadCommMapInfo(mesh: Mesh, t: ElemTable, borElem: seq<int>, ids: seq<int>, cnt: seq<int>,
                         elemids: seq<int>, sideids: seq<int>, received: seq<int>) returns (ok: bool, sent: seq<int>)
    requires forall i :: 0 <= i < |borElem| ==> 1 <= borElem[i] <= mesh.elements.Length
    requires forall i :: 0 <= i < |elemids| ==> 1 <= elemids[i] <= mesh.elements.Length
    requires MapsReady(CommMaps(ids, cnt, Decremented(elemids), sideids, received), |mesh.ebEtypes|, mesh.elements[..])
    modifies mesh`ecmapId, mesh`ecmapCnt, mesh`ecmapElemids, mesh`ecmapSideids, mesh`ecmapNeighids, mesh.elements
    ensures MeshMaps(mesh) == CommMaps(ids, cnt, Decremented(elemids), sideids, received)
    ensures |sent| == |elemids| && forall i :: 0 <= i < |sent| ==> sent[i] == old(mesh.elements[elemids[i] - 1]).globalID
    ensures PassEnds(Flagged(old(mesh.elements[..]), borElem), mesh.ebEtypes, t, MapEntries(MeshMaps(mesh)), ok, mesh.elements[..])
  {
    ghost var elems0 := mesh.elements[..];
    FlagBorder(mesh.elements, borElem);
    mesh.ecmapId, mesh.ecmapCnt := ids, cnt;
    var maxLen := TotalLength(cnt);
    assert |elemids| == maxLen;
    mesh.ecmapElemids, mesh.ecmapSideids := elemids, sideids;
    ghost var flagged := mesh.elements[..];
    sent := LocalizeCommElems(mesh);
    forall i | 0 <= i < |sent| ensures sent[i] == elems0[elemids[i] - 1].globalID {
      assert sent[i] == flagged[elemids[i] - 1].globalID;
    }
    mesh.ecmapNeighids := received;
    FlaggedKeepsReady(elems0, borElem, |mesh.ebEtypes|, MapEntries(MeshMaps(mesh)));
    ok := ApplyCommMaps(mesh, t);
  }
}
