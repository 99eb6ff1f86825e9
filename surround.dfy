/** The node-to-element index: for every local node, the local elements
    whose connectivity names it, kept in growable per-node lists. */
module Surround {
  import opened MeshData
  import opened SeqUtil

  /** Initial capacity of a node's list, and the amount it grows by. */
  const LIST_ALLOC: int := 10

  /** The connectivity of the first `n` elements. */
  function Conns(elems: seq<ElemInfo>, n: int): (r: seq<seq<int>>)
    requires 0 <= n <= |elems|
    ensures |r| == n && forall e :: 0 <= e < n ==> r[e] == elems[e].connect
  {
    seq(n, e requires 0 <= e < n => elems[e].connect)
  }

  /** The elements among the first `k` whose connectivity names `node`,
      each once, in element order. */
  function Incident(conns: seq<seq<int>>, node: int, k: int): (r: seq<int>)
    requires 0 <= k <= |conns|
  {
    if k == 0 then [] else Incident(conns, node, k - 1) + (if node in conns[k - 1] then [k - 1] else [])
  }

  /** A node's list holds only earlier elements, strictly increasing, so
      no element is listed twice even when a connectivity repeats a node. */
  lemma {:induction false} IncidentIncreasing(conns: seq<seq<int>>, node: int, k: int)
    requires 0 <= k <= |conns|
    ensures AllIn(Incident(conns, node, k), 0, k)
    ensures StrictlyIncreasing(Incident(conns, node, k))
  {
    if k > 0 {
      IncidentIncreasing(conns, node, k - 1);
    }
  }

  /** An element is in a node's list exactly when its connectivity names the node. */
  lemma {:induction false} IncidentMembership(conns: seq<seq<int>>, node: int, k: int, e: int)
    requires 0 <= k <= |conns|
    ensures e in Incident(conns, node, k) <==> 0 <= e < k && node in conns[e]
  {
    if k > 0 {
      IncidentMembership(conns, node, k - 1, e);
    }
  }

  /** The capacity of a list holding `count` entries: the smallest
      multiple of LIST_ALLOC that holds them, and never less than one block. */
  function AllocFor(count: int): (cap: int)
    ensures cap % LIST_ALLOC == 0 && LIST_ALLOC <= cap
    ensures count <= cap
    ensures cap == LIST_ALLOC || cap - LIST_ALLOC < count
  {
    if count <= LIST_ALLOC then LIST_ALLOC else ((count - 1) / LIST_ALLOC + 1) * LIST_ALLOC
  }

  /** Appending one entry grows the capacity by one block exactly when the
      list is full. */
  lemma AllocStep(count: nat)
    ensures AllocFor(count + 1) == if count + 1 > AllocFor(count) then AllocFor(count) + LIST_ALLOC else AllocFor(count)
  {
  }

  /** The list of `node` while element `ielem` is being scanned, its first
      `inode` connectivity entries seen. */
  function Partial(conns: seq<seq<int>>, node: int, ielem: int, inode: int): seq<int>
    requires 0 <= ielem < |conns| && 0 <= inode <= |conns[ielem]|
  {
    Incident(conns, node, ielem) + (if node in conns[ielem][..inode] then [ielem] else [])
  }

  /** The last entry of a node's partial list is the element being scanned
      exactly when an earlier connectivity entry of that element named the node. */
  lemma PartialLast(conns: seq<seq<int>>, node: int, ielem: int, inode: int)
    requires 0 <= ielem < |conns| && 0 <= inode <= |conns[ielem]|
    ensures var p := Partial(conns, node, ielem, inode);
      (|p| > 0 && p[|p| - 1] == ielem) <==> node in conns[ielem][..inode]
  {
    IncidentIncreasing(conns, node, ielem);
  }

  /** Seeing one more connectivity entry changes only the list of the node
      it names, and only when that node was not seen before. */
  lemma PartialStep(conns: seq<seq<int>>, node: int, ielem: int, inode: int)
    requires 0 <= ielem < |conns| && 0 <= inode < |conns[ielem]|
    ensures Partial(conns, node, ielem, inode + 1) ==
      if node == conns[ielem][inode] && node !in conns[ielem][..inode]
      then Partial(conns, node, ielem, inode) + [ielem]
      else Partial(conns, node, ielem, inode)
  {
    assert conns[ielem][..inode + 1] == conns[ielem][..inode] + [conns[ielem][inode]];
  }

  /** A finished scan of element `ielem` is the list over the first `ielem + 1` elements. */
  lemma PartialEnds(conns: seq<seq<int>>, node: int, ielem: int)
    requires 0 <= ielem < |conns|
    ensures Partial(conns, node, ielem, 0) == Incident(conns, node, ielem)
    ensures Partial(conns, node, ielem, |conns[ielem]|) == Incident(conns, node, ielem + 1)
  {
    assert conns[ielem][..|conns[ielem]|] == conns[ielem];
  }

  /** Appends `ielem` to the list of node `l`, growing its storage by
      LIST_ALLOC slots when it is full. */
  method AppendElem(sur: array<seq<int>>, alloc: array<int>, ns: array<int>, l: int, ielem: int)
    requires alloc != ns && sur.Length == alloc.Length == ns.Length
    requires 0 <= l < ns.Length
    requires 0 <= ns[l] <= alloc[l] == |sur[l]| && alloc[l] == AllocFor(ns[l])
    modifies sur, alloc, ns
    ensures ns[..] == old(ns[..])[l := old(ns[l]) + 1]
    ensures alloc[..] == old(alloc[..])[l := AllocFor(ns[l])]
    ensures sur[..] == old(sur[..])[l := sur[l]]
    ensures |sur[l]| == alloc[l] && sur[l][..ns[l]] == old(sur[l][..ns[l]]) + [ielem]
  {
    ghost var oldList := sur[l][..ns[l]];
    ns[l] := ns[l] + 1;
    AllocStep(ns[l] - 1);
    if ns[l] > alloc[l] {
      alloc[l] := alloc[l] + LIST_ALLOC;
      sur[l] := sur[l] + seq(LIST_ALLOC, _ => 0);
    }
    assert sur[l][..ns[l] - 1] == oldList;
    sur[l] := sur[l][ns[l] - 1 := ielem];
    assert sur[l][..ns[l]] == oldList + [ielem];
  }

  /** The lists of `numNodes` nodes agree with the partial scan. */
  ghost predicate ListsAt(conns: seq<seq<int>>, sur: seq<seq<int>>, alloc: seq<int>, ns: seq<int>,
                          ielem: int, inode: int)
    requires 0 <= ielem < |conns| && 0 <= inode <= |conns[ielem]|
  {
    && |sur| == |alloc| == |ns|
    && forall n :: 0 <= n < |ns| ==>
      && 0 <= ns[n] <= alloc[n] == |sur[n]|
      && alloc[n] == AllocFor(ns[n])
      && sur[n][..ns[n]] == Partial(conns, n, ielem, inode)
  }

  /** The lists of all nodes once the first `k` elements are scanned. */
  ghost predicate ListsDone(conns: seq<seq<int>>, sur: seq<seq<int>>, alloc: seq<int>, ns: seq<int>, k: int)
    requires 0 <= k <= |conns|
  {
    && |sur| == |alloc| == |ns|
    && forall n :: 0 <= n < |ns| ==>
      && 0 <= ns[n] <= alloc[n] == |sur[n]|
      && alloc[n] == AllocFor(ns[n])
      && sur[n][..ns[n]] == Incident(conns, n, k)
  }

  lemma ListsStartElement(conns: seq<seq<int>>, sur: seq<seq<int>>, alloc: seq<int>, ns: seq<int>, ielem: int)
    requires 0 <= ielem < |conns|
    requires ListsDone(conns, sur, alloc, ns, ielem)
    ensures ListsAt(conns, sur, alloc, ns, ielem, 0)
  {
    forall n | 0 <= n < |ns| ensures sur[n][..ns[n]] == Partial(conns, n, ielem, 0) {
      PartialEnds(conns, n, ielem);
    }
  }

  lemma ListsEndElement(conns: seq<seq<int>>, sur: seq<seq<int>>, alloc: seq<int>, ns: seq<int>, ielem: int)
    requires 0 <= ielem < |conns|
    requires ListsAt(conns, sur, alloc, ns, ielem, |conns[ielem]|)
    ensures ListsDone(conns, sur, alloc, ns, ielem + 1)
  {
    forall n | 0 <= n < |ns| ensures sur[n][..ns[n]] == Incident(conns, n, ielem + 1) {
      PartialEnds(conns, n, ielem);
    }
  }

  /** The running maximum of the list lengths. */
  ghost predicate MaxOf(ns: seq<int>, maxIn: int, maxNsur: int)
  {
    && maxIn <= maxNsur
    && (forall n :: 0 <= n < |ns| ==> ns[n] == 0 || ns[n] <= maxNsur)
    && (maxNsur == maxIn || exists n :: 0 <= n < |ns| && ns[n] == maxNsur)
  }

  /** Incrementing one length and raising the maximum to it when exceeded
      keeps the running maximum. */
  lemma MaxStep(ns0: seq<int>, l: int, maxIn: int, m0: int)
    requires 0 <= l < |ns0| && 0 <= ns0[l]
    requires MaxOf(ns0, maxIn, m0)
    ensures var ns1 := ns0[l := ns0[l] + 1];
      MaxOf(ns1, maxIn, if ns1[l] > m0 then ns1[l] else m0)
  {
    var ns1 := ns0[l := ns0[l] + 1];
    var m1 := if ns1[l] > m0 then ns1[l] else m0;
    if m1 != maxIn {
      if m1 == ns1[l] {
        assert ns1[l] == m1;
      } else {
        var w :| 0 <= w < |ns0| && ns0[w] == m0;
        assert ns1[w] == m1;
      }
    }
  }

  /** A node already closing its list with `ielem` stays as it is. */
  lemma ListsSkip(conns: seq<seq<int>>, sur: seq<seq<int>>, alloc: seq<int>, ns: seq<int>, ielem: int, inode: int)
    requires 0 <= ielem < |conns| && 0 <= inode < |conns[ielem]|
    requires ListsAt(conns, sur, alloc, ns, ielem, inode)
    requires conns[ielem][inode] in conns[ielem][..inode]
    ensures ListsAt(conns, sur, alloc, ns, ielem, inode + 1)
  {
    forall n | 0 <= n < |ns| ensures sur[n][..ns[n]] == Partial(conns, n, ielem, inode + 1) {
      PartialStep(conns, n, ielem, inode);
    }
  }

  /** Appending `ielem` to the list of a node seen for the first time. */
  lemma ListsAppend(conns: seq<seq<int>>, sur0: seq<seq<int>>, alloc0: seq<int>, ns0: seq<int>,
                    sur1: seq<seq<int>>, alloc1: seq<int>, ns1: seq<int>, ielem: int, inode: int)
    requires 0 <= ielem < |conns| && 0 <= inode < |conns[ielem]|
    requires ListsAt(conns, sur0, alloc0, ns0, ielem, inode)
    requires var l := conns[ielem][inode];
      && 0 <= l < |ns0|
      && l !in conns[ielem][..inode]
      && ns1 == ns0[l := ns0[l] + 1]
      && alloc1 == alloc0[l := AllocFor(ns1[l])]
      && |sur1| == |sur0| && sur1 == sur0[l := sur1[l]]
      && |sur1[l]| == alloc1[l]
      && sur1[l][..ns1[l]] == sur0[l][..ns0[l]] + [ielem]
    ensures ListsAt(conns, sur1, alloc1, ns1, ielem, inode + 1)
  {
    forall n | 0 <= n < |ns1| ensures sur1[n][..ns1[n]] == Partial(conns, n, ielem, inode + 1) {
      PartialStep(conns, n, ielem, inode);
    }
  }

  /** The list of node `l` ends with `ielem` exactly when `l` was seen earlier in its connectivity. */
  lemma SeenMeansListed(conns: seq<seq<int>>, sur: seq<seq<int>>, alloc: seq<int>, ns: seq<int>,
                        ielem: int, inode: int, l: int)
    requires 0 <= ielem < |conns| && 0 <= inode <= |conns[ielem]|
    requires ListsAt(conns, sur, alloc, ns, ielem, inode)
    requires 0 <= l < |ns|
    ensures (ns[l] > 0 && sur[l][ns[l] - 1] == ielem) <==> l in conns[ielem][..inode]
  {
    PartialLast(conns, l, ielem, inode);
    if ns[l] > 0 {
      assert sur[l][..ns[l]][ns[l] - 1] == sur[l][ns[l] - 1];
    }
  }

  /** Scan state inside element `ielem`, after `inode` of its nodes. */
  ghost predicate ScanAt(conns: seq<seq<int>>, sur: seq<seq<int>>, alloc: seq<int>, ns: seq<int>,
                         ielem: int, inode: int, maxIn: int, maxNsur: int)
  {
    && 0 <= ielem < |conns| && 0 <= inode <= |conns[ielem]|
    && (forall e, i :: 0 <= e < |conns| && 0 <= i < |conns[e]| ==> 0 <= conns[e][i] < |ns|)
    && ListsAt(conns, sur, alloc, ns, ielem, inode)
    && MaxOf(ns, maxIn, maxNsur)
  }

  /** Scan state between elements, the first `ielem` done. */
  ghost predicate ScanDone(conns: seq<seq<int>>, sur: seq<seq<int>>, alloc: seq<int>, ns: seq<int>,
                           ielem: int, maxIn: int, maxNsur: int)
  {
    && 0 <= ielem <= |conns|
    && (forall e, i :: 0 <= e < |conns| && 0 <= i < |conns[e]| ==> 0 <= conns[e][i] < |ns|)
    && ListsDone(conns, sur, alloc, ns, ielem)
    && MaxOf(ns, maxIn, maxNsur)
  }

  /** Adds element `ielem` to the list of its `inode`-th node, unless the
      list already ends with it. */
  method ScanNode(conns: seq<seq<int>>, ielem: int, inode: int,
                  sur: array<seq<int>>, alloc: array<int>, ns: array<int>,
                  maxIn: int, maxNsur0: int) returns (maxNsur: int)
    requires alloc != ns && 0 <= ielem < |conns| && 0 <= inode < |conns[ielem]|
    requires ScanAt(conns, sur[..], alloc[..], ns[..], ielem, inode, maxIn, maxNsur0)
    modifies sur, alloc, ns
    ensures ScanAt(conns, sur[..], alloc[..], ns[..], ielem, inode + 1, maxIn, maxNsur)
  {
    maxNsur := maxNsur0;
    var lnode := conns[ielem][inode];
    ghost var sur0, alloc0, ns0 := sur[..], alloc[..], ns[..];
    SeenMeansListed(conns, sur0, alloc0, ns0, ielem, inode, lnode);
    if ns[lnode] > 0 && ielem == sur[lnode][ns[lnode] - 1] {
      // a degenerate connectivity names the node twice: already listed
      ListsSkip(conns, sur0, alloc0, ns0, ielem, inode);
    } else {
      AppendElem(sur, alloc, ns, lnode, ielem);
      ListsAppend(conns, sur0, alloc0, ns0, sur[..], alloc[..], ns[..], ielem, inode);
      MaxStep(ns0, lnode, maxIn, maxNsur);
      if ns[lnode] > maxNsur {
        maxNsur := ns[lnode];
      }
    }
  }

  /** Adds element `ielem` to the list of every node its connectivity names,
      once per node even when the connectivity repeats it. */
  method ScanElement(conns: seq<seq<int>>, ielem: int,
                     sur: array<seq<int>>, alloc: array<int>, ns: array<int>,
                     maxIn: int, maxNsur0: int) returns (maxNsur: int)
    requires alloc != ns && ielem < |conns|
    requires ScanDone(conns, sur[..], alloc[..], ns[..], ielem, maxIn, maxNsur0)
    modifies sur, alloc, ns
    ensures ScanDone(conns, sur[..], alloc[..], ns[..], ielem + 1, maxIn, maxNsur)
  {
    maxNsur := maxNsur0;
    ListsStartElement(conns, sur[..], alloc[..], ns[..], ielem);
    var inode := 0;
    while inode < |conns[ielem]|
      invariant ScanAt(conns, sur[..], alloc[..], ns[..], ielem, inode, maxIn, maxNsur)
    {
      maxNsur := ScanNode(conns, ielem, inode, sur, alloc, ns, maxIn, maxNsur);
      inode := inode + 1;
    }
    ListsEndElement(conns, sur[..], alloc[..], ns[..], ielem);
  }

  /** Builds every node's list of surrounding elements. `maxNsurIn` is the
      running maximum the caller starts from. */
  method FindSurndElem(mesh: Mesh, maxNsurIn: int)
      returns (surElem: seq<seq<int>>, nsurnd: seq<int>, allocCnt: seq<int>, maxNsur: int)
    requires mesh.ConnectValid()
    ensures |surElem| == |nsurnd| == |allocCnt| == mesh.numNodes
    ensures forall n :: 0 <= n < mesh.numNodes ==>
      && 0 <= nsurnd[n] <= allocCnt[n] == |surElem[n]|
      && allocCnt[n] == AllocFor(nsurnd[n])
      && surElem[n][..nsurnd[n]] == Incident(Conns(mesh.elements[..], mesh.numElems), n, mesh.numElems)
    ensures MaxOf(nsurnd, maxNsurIn, maxNsur)
  {
    var sur := new seq<int>[mesh.numNodes](_ => seq(LIST_ALLOC, _ => 0));
    var alloc := new int[mesh.numNodes](_ => LIST_ALLOC);
    var ns := new int[mesh.numNodes](_ => 0);
    var conns := Conns(mesh.elements[..], mesh.numElems);
    forall e, i | 0 <= e < |conns| && 0 <= i < |conns[e]| ensures 0 <= conns[e][i] < ns.Length {
      assert mesh.ElemConnectValid(mesh.elements[e]);
    }
    maxNsur := maxNsurIn;
    var ielem := 0;
    while ielem < mesh.numElems
      invariant ScanDone(conns, sur[..], alloc[..], ns[..], ielem, maxNsurIn, maxNsur)
    {
      maxNsur := ScanElement(conns, ielem, sur, alloc, ns, maxNsurIn, maxNsur);
      ielem := ielem + 1;
    }
    surElem, nsurnd, allocCnt := sur[..], ns[..], alloc[..];
  }
}
