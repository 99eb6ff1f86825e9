/** Reading the local elements: each block's connectivity turned into
    element records, the node-to-element lists and the adjacency built
    from them, and the connectivity finally renumbered with global node
    numbers. */
module ElemReader {
  import opened MeshData
  import opened ElemTypes
  import opened SeqUtil
  import opened Surround
  import opened Adjacency

  /** The size of the connectivity buffer: the largest block's count of
      elements times its count of nodes per element, or 0. */
  method MaxConnectLen(ebCnts: seq<int>, ebNnodes: seq<int>) returns (len: int)
    requires |ebCnts| == |ebNnodes|
    ensures 0 <= len
    ensures forall b :: 0 <= b < |ebCnts| ==> ebCnts[b] * ebNnodes[b] <= len
    ensures len == 0 || exists b :: 0 <= b < |ebCnts| && len == ebCnts[b] * ebNnodes[b]
  {
    len := 0;
    var iblk := 0;
    while iblk < |ebCnts|
      invariant 0 <= iblk <= |ebCnts| && 0 <= len
      invariant forall b :: 0 <= b < iblk ==> ebCnts[b] * ebNnodes[b] <= len
      invariant len == 0 || exists b :: 0 <= b < iblk && len == ebCnts[b] * ebNnodes[b]
    {
      var iplace := ebCnts[iblk] * ebNnodes[iblk];
      if iplace > len {
        len := iplace;
      }
      iblk := iblk + 1;
    }
  }

  /** One block as the file gives it: `cnt` elements, each a row of
      `nnodes` 1-based node numbers. */
  ghost predicate BlockReady(nnodes: int, cnt: int, rows: seq<seq<int>>)
  {
    && 0 <= nnodes && 0 <= cnt && |rows| == cnt
    && forall i :: 0 <= i < cnt ==> |rows[i]| == nnodes
  }

  /** The blocks laid out one after another fit both the element slots and
      the element number map, and every slot they fill has a CPU weight. */
  ghost predicate ReaderReady(elems0: seq<ElemInfo>, emap: seq<int>, ebNnodes: seq<int>, ebCnts: seq<int>,
                              conn: seq<seq<seq<int>>>)
  {
    && |ebNnodes| == |ebCnts| == |conn|
    && (forall b :: 0 <= b < |ebCnts| ==> BlockReady(ebNnodes[b], ebCnts[b], conn[b]))
    && Total(ebCnts, |ebCnts|) <= |elems0|
    && Total(ebCnts, |ebCnts|) <= |emap|
    && forall p :: 0 <= p < Total(ebCnts, |ebCnts|) ==> 1 <= |elems0[p].cpuWgt|
  }

  /** An element as read: not yet on the border, the given global ID and
      block, no adjacency, unit CPU and memory weights, and the file's node
      numbers made 0-based. Further CPU weights and the slot lists are
      left as they were. */
  function ReadRecord(r0: ElemInfo, gid: int, blk: int, row: seq<int>): ElemInfo
    requires 1 <= |r0.cpuWgt|
  {
    r0.(border := 0, globalID := gid, elemBlk := blk, nadj := 0, adjLen := 0,
        cpuWgt := r0.cpuWgt[0 := 1.0], memWgt := 1.0, connect := Decremented(row))
  }

  /** `elems` once the first `n` elements of block `blk` are read into
      the places from `start` on. */
  ghost function FillBlock(elems: seq<ElemInfo>, emap: seq<int>, blk: int, rows: seq<seq<int>>,
                           start: int, n: int): (r: seq<ElemInfo>)
    requires 0 <= start && 0 <= n <= |rows| && start + n <= |elems| && start + n <= |emap|
    requires forall p :: start <= p < start + n ==> 1 <= |elems[p].cpuWgt|
    ensures |r| == |elems|
  {
    seq(|elems|, p requires 0 <= p < |elems| =>
      if start <= p < start + n then ReadRecord(elems[p], emap[p], blk, rows[p - start]) else elems[p])
  }

  /** The element slots once the first `k` blocks are read; places from the
      end of block `k - 1` on are untouched. */
  ghost function Filled(elems0: seq<ElemInfo>, emap: seq<int>, ebNnodes: seq<int>, ebCnts: seq<int>,
                        conn: seq<seq<seq<int>>>, k: int): (r: seq<ElemInfo>)
    requires ReaderReady(elems0, emap, ebNnodes, ebCnts, conn) && 0 <= k <= |ebCnts|
    ensures |r| == |elems0|
    ensures forall p :: 0 <= p < |elems0| && Total(ebCnts, k) <= p ==> r[p] == elems0[p]
  {
    if k == 0 then elems0
    else
      var prev := Filled(elems0, emap, ebNnodes, ebCnts, conn, k - 1);
      TotalGrows(ebCnts, 0, k - 1);
      TotalGrows(ebCnts, k, |ebCnts|);
      FillBlock(prev, emap, k - 1, conn[k - 1], Total(ebCnts, k - 1), ebCnts[k - 1])
  }

  /** Reads one element into place `iplace`, copying its row of node
      numbers, made 0-based, into a new connectivity list. */
  method ReadElement(elements: array<ElemInfo>, iplace: int, gid: int, iblk: int, nnodes: int, row: seq<int>)
    requires 0 <= iplace < elements.Length && 1 <= |elements[iplace].cpuWgt|
    requires |row| == nnodes
    modifies elements
    ensures elements[..] == old(elements[..])[iplace := ReadRecord(old(elements[iplace]), gid, iblk, row)]
  {
    var r := elements[iplace];
    r := r.(border := 0, globalID := gid, elemBlk := iblk, nadj := 0, adjLen := 0,
            cpuWgt := r.cpuWgt[0 := 1.0], memWgt := 1.0);
    var connect: seq<int> := [];
    var inode := 0;
    while inode < nnodes
      invariant 0 <= inode <= nnodes && connect == Decremented(row[..inode])
    {
      connect := connect + [row[inode] - 1];
      inode := inode + 1;
    }
    assert row[..nnodes] == row;
    elements[iplace] := r.(connect := connect);
  }

  /** Reads the `cnt` elements of block `iblk` into the places from `start` on. */
  method ReadBlock(elements: array<ElemInfo>, emap: seq<int>, iblk: int, nnodes: int, cnt: int,
                   rows: seq<seq<int>>, start: int)
    requires BlockReady(nnodes, cnt, rows)
    requires 0 <= start && start + cnt <= elements.Length && start + cnt <= |emap|
    requires forall p :: start <= p < start + cnt ==> 1 <= |elements[p].cpuWgt|
    modifies elements
    ensures elements[..] == FillBlock(old(elements[..]), emap, iblk, rows, start, cnt)
  {
    ghost var elems0 := elements[..];
    var ielem := 0;
    while ielem < cnt
      invariant 0 <= ielem <= cnt
      invariant elements[..] == FillBlock(elems0, emap, iblk, rows, start, ielem)
    {
      ReadElement(elements, start + ielem, emap[start + ielem], iblk, nnodes, rows[ielem]);
      ielem := ielem + 1;
    }
  }

  /** Reads every block in order, each into the places after the previous one. */
  method ReadElemBlocks(mesh: Mesh, emap: seq<int>, conn: seq<seq<seq<int>>>)
    requires ReaderReady(mesh.elements[..], emap, mesh.ebNnodes, mesh.ebCnts, conn)
    modifies mesh.elements
    ensures mesh.elements[..] == Filled(old(mesh.elements[..]), emap, mesh.ebNnodes, mesh.ebCnts, conn, |mesh.ebCnts|)
  {
    ghost var elems0 := mesh.elements[..];
    var iplace := 0;
    var iblk := 0;
    while iblk < |mesh.ebCnts|
      invariant 0 <= iblk <= |mesh.ebCnts| && iplace == Total(mesh.ebCnts, iblk)
      invariant mesh.elements[..] == Filled(elems0, emap, mesh.ebNnodes, mesh.ebCnts, conn, iblk)
    {
      TotalGrows(mesh.ebCnts, 0, iblk);
      TotalGrows(mesh.ebCnts, iblk + 1, |mesh.ebCnts|);
      if mesh.ebCnts[iblk] > 0 {
        ReadBlock(mesh.elements, emap, iblk, mesh.ebNnodes[iblk], mesh.ebCnts[iblk], conn[iblk], iplace);
        iplace := iplace + mesh.ebCnts[iblk];
      } else {
        assert mesh.elements[..] == Filled(elems0, emap, mesh.ebNnodes, mesh.ebCnts, conn, iblk + 1);
      }
      iblk := iblk + 1;
    }
  }

  /** Row `i` of block `b` lands in place `Total(b) + i`: the blocks are
      laid out in file order, with no gap and no overlap. */
  lemma {:induction false} FilledAt(elems0: seq<ElemInfo>, emap: seq<int>, ebNnodes: seq<int>, ebCnts: seq<int>,
                                    conn: seq<seq<seq<int>>>, k: int, b: int, i: int)
    requires ReaderReady(elems0, emap, ebNnodes, ebCnts, conn)
    requires 0 <= b < k <= |ebCnts| && 0 <= i < ebCnts[b]
    ensures 0 <= Total(ebCnts, b) + i < Total(ebCnts, |ebCnts|)
    ensures var p := Total(ebCnts, b) + i;
      Filled(elems0, emap, ebNnodes, ebCnts, conn, k)[p] == ReadRecord(elems0[p], emap[p], b, conn[b][i])
  {
    TotalGrows(ebCnts, 0, b);
    TotalGrows(ebCnts, b + 1, |ebCnts|);
    if b < k - 1 {
      FilledAt(elems0, emap, ebNnodes, ebCnts, conn, k - 1, b, i);
      TotalGrows(ebCnts, b + 1, k - 1);
    }
  }

  /** The file's node numbers name local nodes, 1-based. */
  ghost predicate NodesLocal(conn: seq<seq<seq<int>>>, numNodes: int)
  {
    forall b, i, j :: 0 <= b < |conn| && 0 <= i < |conn[b]| && 0 <= j < |conn[b][i]| ==> 1 <= conn[b][i][j] <= numNodes
  }

  /** The elements read name a known block, have its node count and refer
      to local nodes only: what the node-to-element lists need. */
  lemma ReadIsValid(mesh: Mesh, elems0: seq<ElemInfo>, emap: seq<int>, conn: seq<seq<seq<int>>>)
    requires ReaderReady(elems0, emap, mesh.ebNnodes, mesh.ebCnts, conn) && NodesLocal(conn, mesh.numNodes)
    ensures var r := Filled(elems0, emap, mesh.ebNnodes, mesh.ebCnts, conn, |mesh.ebCnts|);
      forall e :: 0 <= e < Total(mesh.ebCnts, |mesh.ebCnts|) ==> mesh.ElemConnectValid(r[e])
  {
    var r := Filled(elems0, emap, mesh.ebNnodes, mesh.ebCnts, conn, |mesh.ebCnts|);
    forall e | 0 <= e < Total(mesh.ebCnts, |mesh.ebCnts|) ensures mesh.ElemConnectValid(r[e]) {
      var b := GroupOf(mesh.ebCnts, |mesh.ebCnts|, e);
      FilledAt(elems0, emap, mesh.ebNnodes, mesh.ebCnts, conn, |mesh.ebCnts|, b, e - Total(mesh.ebCnts, b));
    }
  }

  /** Connectivity renumbered through the node map. */
  function Globalized(connect: seq<int>, nmap: seq<int>): seq<int>
    requires forall i :: 0 <= i < |connect| ==> 0 <= connect[i] < |nmap|
  {
    seq(|connect|, i requires 0 <= i < |connect| => nmap[connect[i]])
  }

  /** The first `n` elements refer to nodes below `bound` only. */
  ghost predicate NodesBelow(elems: seq<ElemInfo>, n: int, bound: int)
  {
    && 0 <= n <= |elems|
    && forall e, i :: 0 <= e < n && 0 <= i < |elems[e].connect| ==> 0 <= elems[e].connect[i] < bound
  }

  /** The records with the connectivity of the first `n` renumbered. */
  ghost function Translated(elems: seq<ElemInfo>, nmap: seq<int>, n: int): (r: seq<ElemInfo>)
    requires NodesBelow(elems, n, |nmap|)
    ensures |r| == |elems|
  {
    seq(|elems|, e requires 0 <= e < |elems| =>
      if e < n then elems[e].(connect := Globalized(elems[e].connect, nmap)) else elems[e])
  }

  /** Renumbers the first `nnodes` entries of one element's connectivity. */
  method TranslateElement(elements: array<ElemInfo>, ielem: int, nnodes: int, nmap: seq<int>)
    requires 0 <= ielem < elements.Length && |elements[ielem].connect| == nnodes
    requires forall i :: 0 <= i < nnodes ==> 0 <= elements[ielem].connect[i] < |nmap|
    modifies elements
    ensures elements[..] == old(elements[..])[ielem :=
      old(elements[ielem]).(connect := Globalized(old(elements[ielem]).connect, nmap))]
  {
    var r := elements[ielem];
    var connect := r.connect;
    var inode := 0;
    while inode < nnodes
      invariant 0 <= inode <= nnodes == |connect|
      invariant connect[..inode] == Globalized(r.connect, nmap)[..inode]
      invariant connect[inode..] == r.connect[inode..]
    {
      assert connect[inode] == r.connect[inode..][0];
      connect := connect[inode := nmap[connect[inode]]];
      inode := inode + 1;
    }
    assert connect == connect[..nnodes] && Globalized(r.connect, nmap) == Globalized(r.connect, nmap)[..nnodes];
    elements[ielem] := r.(connect := connect);
  }

  /** Renumbers the connectivity of every local element with global node numbers. */
  method TranslateConnect(elements: array<ElemInfo>, numElems: int, ebNnodes: seq<int>, nmap: seq<int>)
    requires NodesBelow(elements[..], numElems, |nmap|)
    requires forall e :: 0 <= e < numElems ==>
      0 <= elements[e].elemBlk < |ebNnodes| && |elements[e].connect| == ebNnodes[elements[e].elemBlk]
    modifies elements
    ensures elements[..] == Translated(old(elements[..]), nmap, numElems)
  {
    ghost var elems0 := elements[..];
    var ielem := 0;
    while ielem < numElems
      invariant 0 <= ielem <= numElems
      invariant elements[..] == Translated(elems0, nmap, ielem)
    {
      assert elements[ielem] == elems0[ielem];
      var iblk := elements[ielem].elemBlk;
      TranslateElement(elements, ielem, ebNnodes[iblk], nmap);
      ielem := ielem + 1;
    }
  }

  /** The side layout of every block's element type lies within the
      block's connectivity. */
  ghost predicate TableFits(t: ElemTable, ebEtypes: seq<int>, ebNnodes: seq<int>)
  {
    forall b :: 0 <= b < |ebNnodes| && b < |ebEtypes| && ebNnodes[b] > 1 ==> SidesWithin(t, ebEtypes[b], ebNnodes[b])
  }

  /** Lists built from valid connectivity, with a running maximum started
      at 0, make a context adjacency construction accepts. */
  lemma SurroundCtx(c: Ctx)
    requires 0 <= c.numElems <= |c.shapes| && |c.ebEtypes| == |c.ebNnodes| && |c.sur| == |c.nsurnd|
    requires forall n :: 0 <= n < |c.sur| ==>
      0 <= c.nsurnd[n] <= |c.sur[n]| && c.sur[n][..c.nsurnd[n]] == Incident(ShapeConns(c), n, c.numElems)
    requires MaxOf(c.nsurnd, 0, c.maxNsur)
    requires forall e :: 0 <= e < c.numElems ==>
      && 0 <= c.shapes[e].blk < |c.ebNnodes|
      && |c.shapes[e].connect| == c.ebNnodes[c.shapes[e].blk]
      && forall i :: 0 <= i < |c.shapes[e].connect| ==> 0 <= c.shapes[e].connect[i] < |c.sur|
    requires TableFits(c.t, c.ebEtypes, c.ebNnodes)
    ensures CtxValid(c) && ListsFromMesh(c)
  {
    forall n | 0 <= n < |c.sur|
      ensures c.nsurnd[n] <= c.maxNsur
      ensures StrictlyIncreasing(c.sur[n][..c.nsurnd[n]]) && AllIn(c.sur[n][..c.nsurnd[n]], 0, c.numElems)
    {
      IncidentIncreasing(ShapeConns(c), n, c.numElems);
    }
  }

  /** Adjacency construction keeps every element's connectivity valid. */
  lemma AdjacencyKeepsValid(mesh: Mesh, c: Ctx, read: seq<ElemInfo>)
    requires CtxValid(c) && c.numElems == mesh.numElems <= |read|
    requires forall e :: 0 <= e < c.numElems ==> mesh.ElemConnectValid(read[e])
    ensures var out := MeshAdjacency(c, read, c.numElems).elems;
      forall e :: 0 <= e < c.numElems ==> mesh.ElemConnectValid(out[e])
  {
    MeshKeepsIdentity(c, read, c.numElems);
  }

  /** Reads the blocks and builds the node-to-element lists over them,
      with the running maximum started at 0. */
  method ReadAndSurround(mesh: Mesh, proc: int, t: ElemTable, emap: seq<int>, conn: seq<seq<seq<int>>>)
      returns (sur: seq<seq<int>>, nsurnd: seq<int>, maxNsur: int)
    requires ReaderReady(mesh.elements[..], emap, mesh.ebNnodes, mesh.ebCnts, conn)
    requires mesh.numElems == Total(mesh.ebCnts, |mesh.ebCnts|)
    requires 0 <= mesh.numNodes && |mesh.ebEtypes| == |mesh.ebNnodes|
    requires NodesLocal(conn, mesh.numNodes) && TableFits(t, mesh.ebEtypes, mesh.ebNnodes)
    modifies mesh.elements
    ensures mesh.elements[..] == Filled(old(mesh.elements[..]), emap, mesh.ebNnodes, mesh.ebCnts, conn, |mesh.ebCnts|)
    ensures forall e :: 0 <= e < mesh.numElems ==> mesh.ElemConnectValid(mesh.elements[e])
    ensures var c := MeshCtx(mesh, proc, sur, nsurnd, maxNsur, t); CtxValid(c) && ListsFromMesh(c)
  {
    ReadElemBlocks(mesh, emap, conn);
    ReadIsValid(mesh, old(mesh.elements[..]), emap, conn);
    TotalGrows(mesh.ebCnts, 0, |mesh.ebCnts|);
    var allocCnt;
    sur, nsurnd, allocCnt, maxNsur := FindSurndElem(mesh, 0);
    var c := MeshCtx(mesh, proc, sur, nsurnd, maxNsur, t);
    assert ShapeConns(c) == Conns(mesh.elements[..], mesh.numElems);
    SurroundCtx(c);
  }

  /** How reading ends: adjacency built over the records read, and, when
      it succeeded, every local element's connectivity renumbered. */
  ghost predicate ReadEnds(read: seq<ElemInfo>, c: Ctx, nmap: seq<int>, ok: bool, cur: seq<ElemInfo>)
  {
    && CtxValid(c) && c.numElems <= |read|
    && var out := MeshAdjacency(c, read, c.numElems);
    && NodesBelow(out.elems, c.numElems, |nmap|)
    && ok == !out.failed
    && cur == if ok then Translated(out.elems, nmap, c.numElems) else out.elems
  }

  /** Reads the local elements from the file's block connectivity and
      number maps, builds the node-to-element lists and the adjacency, and
      on success renumbers the connectivity with global node numbers. The
      context `c` the adjacency was built over is returned for the proof. */
  method ReadElemInfo(mesh: Mesh, proc: int, t: ElemTable, emap: seq<int>, nmap: seq<int>,
                      conn: seq<seq<seq<int>>>)
      returns (ok: bool, ghost c: Ctx)
    requires ReaderReady(mesh.elements[..], emap, mesh.ebNnodes, mesh.ebCnts, conn)
    requires mesh.numElems == Total(mesh.ebCnts, |mesh.ebCnts|)
    requires 0 <= mesh.numNodes <= |nmap| && |mesh.ebEtypes| == |mesh.ebNnodes|
    requires NodesLocal(conn, mesh.numNodes) && TableFits(t, mesh.ebEtypes, mesh.ebNnodes)
    modifies mesh.elements
    ensures var read := Filled(old(mesh.elements[..]), emap, mesh.ebNnodes, mesh.ebCnts, conn, |mesh.ebCnts|);
      && c.proc == proc && c.numDims == mesh.numDims && c.numElems == mesh.numElems && c.t == t
      && c.ebEtypes == mesh.ebEtypes && c.ebNnodes == mesh.ebNnodes && c.shapes == Shapes(read)
      && CtxValid(c) && ListsFromMesh(c)
      && ReadEnds(read, c, nmap, ok, mesh.elements[..])
  {
    var sur, nsurnd, maxNsur := ReadAndSurround(mesh, proc, t, emap, conn);
    ghost var read := mesh.elements[..];
    c := MeshCtx(mesh, proc, sur, nsurnd, maxNsur, t);
    ok := FindAdjacency(mesh, proc, sur, nsurnd, maxNsur, t);
    AdjacencyKeepsValid(mesh, c, read);
    if !ok {
      return;
    }
    TranslateConnect(mesh.elements, mesh.numElems, mesh.ebNnodes, nmap);
  }

  /** End to end: element `i` of block `b` ends at place `Total(b) + i`
      with the global ID of the element map, block `b`, and, when reading
      succeeded, the global numbers of the file's nodes in file order
      (local 0-based numbers when adjacency construction failed). */
  lemma ReadRecordsFromFile(elems0: seq<ElemInfo>, emap: seq<int>, ebNnodes: seq<int>, ebCnts: seq<int>,
                            conn: seq<seq<seq<int>>>, c: Ctx, nmap: seq<int>, ok: bool, cur: seq<ElemInfo>,
                            b: int, i: int)
    requires ReaderReady(elems0, emap, ebNnodes, ebCnts, conn)
    requires c.numElems == Total(ebCnts, |ebCnts|)
    requires NodesLocal(conn, |nmap|)
    requires ReadEnds(Filled(elems0, emap, ebNnodes, ebCnts, conn, |ebCnts|), c, nmap, ok, cur)
    requires 0 <= b < |ebCnts| && 0 <= i < ebCnts[b]
    ensures var p := Total(ebCnts, b) + i;
      && 0 <= p < Total(ebCnts, |ebCnts|) <= |cur|
      && cur[p].globalID == emap[p] && cur[p].elemBlk == b
      && |cur[p].connect| == |conn[b][i]|
      && forall j :: 0 <= j < |conn[b][i]| ==>
           cur[p].connect[j] == if ok then nmap[conn[b][i][j] - 1] else conn[b][i][j] - 1
  {
    var read := Filled(elems0, emap, ebNnodes, ebCnts, conn, |ebCnts|);
    FilledAt(elems0, emap, ebNnodes, ebCnts, conn, |ebCnts|, b, i);
    MeshKeepsIdentity(c, read, c.numElems);
  }

  /** An element of a block with at most one node per element ends with
      no side slots and no neighbours, whether or not reading succeeded. */
  lemma ReadPointsHaveNoSides(elems0: seq<ElemInfo>, emap: seq<int>, ebNnodes: seq<int>, ebCnts: seq<int>,
                              conn: seq<seq<seq<int>>>, c: Ctx, nmap: seq<int>, ok: bool, cur: seq<ElemInfo>,
                              b: int, i: int)
    requires ReaderReady(elems0, emap, ebNnodes, ebCnts, conn)
    requires c.numElems == Total(ebCnts, |ebCnts|)
    requires c.ebNnodes == ebNnodes && c.shapes == Shapes(Filled(elems0, emap, ebNnodes, ebCnts, conn, |ebCnts|))
    requires ReadEnds(Filled(elems0, emap, ebNnodes, ebCnts, conn, |ebCnts|), c, nmap, ok, cur)
    requires 0 <= b < |ebCnts| && 0 <= i < ebCnts[b] && ebNnodes[b] <= 1
    ensures var p := Total(ebCnts, b) + i;
      0 <= p < |cur| && cur[p].adjLen == 0 && cur[p].nadj == 0
  {
    var read := Filled(elems0, emap, ebNnodes, ebCnts, conn, |ebCnts|);
    FilledAt(elems0, emap, ebNnodes, ebCnts, conn, |ebCnts|, b, i);
    var p := Total(ebCnts, b) + i;
    assert Blk(c, p) == b;
    MeshSkipsPoint(c, read, c.numElems, p);
  }
}
