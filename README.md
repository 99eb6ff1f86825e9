# Face-adjacency graph of the old Zoltan test driver, in Dafny

This project models how the old Zoltan test driver builds the dual graph of an
Exodus II / Nemesis mesh that is distributed over processes. It also models the
query callbacks that hand this graph to the partitioner. The model covers:

- **Reading the elements.** Each element block's connectivity is read into
  element records. Node numbers are made 0-based, and after adjacency
  construction they become global node numbers through the node map.
- **The node-to-element index.** Every local node gets a growable list of
  the local elements that touch it. The lists grow in blocks of
  `LIST_ALLOC` = 10 slots.
- **Local face adjacency.** For every side of every element with more
  than one node, the lists of the side's nodes are intersected. Each
  remaining candidate is then confirmed through a mirrored side lookup on
  the neighbour. The side's slot records the neighbour, the calling process
  and the side's node count as edge weight.
- **Remote adjacency from the elemental communication maps.** Border
  elements are flagged. Map entries are converted to 0-based local
  elements, and the global ids sent to the neighbouring process are
  computed. The neighbours' global ids received in return are written into
  the named side slots. The pass fails once an element would hold more
  neighbours than it has sides.
- **The partitioner's query callbacks.**
  - The element count.
  - An iterator over the local elements.
  - The geometry dimension.
  - Per element, the edge count and the edge list.
  - The geometry query's error checks.
  - A search by global id.

Modules follow the driver's structure:

- `MeshData`: the element record `ElemInfo` and the `Mesh` class.
- `ElemTypes`: the element-type tables, which are abstract.
- `SeqUtil`: sorted lists and prefix sums.
- `Surround`: `find_surnd_elem`.
- `Intersect`: `find_inter` and the narrowing loop.
- `Adjacency`: `find_adjacency`.
- `CommMap` and `CommMapFacts`: `read_comm_map_info`.
- `ElemReader`: `read_elem_info`.
- `LoadBal`: the callbacks of `dr_loadbal.c`.

The loops of the source that build results step by step are Dafny methods
with `while` loops. Each such method is proved against a specification
function over sequences:

| method | specification function |
|---|---|
| `FindSurndElem` | `Incident` |
| `Narrow` | `Common` / `Candidates` |
| `AdjacencyPass` | `MeshAdjacency` |
| `ApplyAllMaps` | `ApplyEntries` |
| `ReadElemBlocks` | `Filled` |
| `TranslateConnect` | `Translated` |
| `GetEdgeList` | `Edges` |

The lemmas beside each specification function state what the source
promises.

Three initialisation loops of the source are not loops in the model:

- the loop that gives every element slot its initial record
  (`src/driver_old/dr_exoII_io.c:216-217`) is an array initializer in
  `MeshData.Mesh.constructor`;
- the loops that set up the node-to-element lists
  (`src/driver_old/dr_exoII_io.c:470-479`) are array initializers in
  `Surround.FindSurndElem`;
- the loop that gives an element one empty slot per side
  (`src/driver_old/dr_exoII_io.c:587-591`) is the function
  `Adjacency.InitSlots`, built from sequence comprehensions.

## Model

| member | source | states |
|---|---|---|
| MeshData.Mesh.constructor | src/driver_old/dr_exoII_io.c:204-217 | the mesh gets `numElems + 5` element slots, each an unused record; the block metadata is as given |
| MeshData.UnusedElem | src/driver_old/dr_exoII_io.c:212-217 | an unused slot has global id -1, no sides and no neighbours |
| SeqUtil.Decremented | src/driver_old/dr_exoII_io.c:805-806 | every 1-based number becomes the 0-based number one below it, and the length is kept |
| Surround.IncidentIncreasing | src/driver_old/dr_exoII_io.c:482-514 | each node's list is strictly increasing and names only elements already scanned, so no element is listed twice even when a connectivity repeats a node |
| Surround.IncidentMembership | src/driver_old/dr_exoII_io.c:482-514 | element `e` is in node `n`'s list exactly when `e` is a scanned element whose connectivity names `n` |
| Surround.AllocFor | src/driver_old/dr_exoII_io.c:472-477 | a list's capacity is a multiple of LIST_ALLOC, at least LIST_ALLOC, at least its length, and less than one block more than the length once it has grown |
| Surround.AllocStep | src/driver_old/dr_exoII_io.c:502-503 | appending grows the capacity by one LIST_ALLOC block exactly when the list was full |
| Surround.PartialLast | src/driver_old/dr_exoII_io.c:492-494 | a node's list ends with the current element exactly when an earlier entry of that element's connectivity named the node, which is the condition the degenerate-element guard tests |
| Surround.PartialStep | src/driver_old/dr_exoII_io.c:484-514 | one connectivity entry changes only the list of the node it names, and only the first time that element names the node |
| Surround.SeenMeansListed | src/driver_old/dr_exoII_io.c:492-494 | in the scan state, the guard's test on the stored list is true exactly when the node already appeared in this element's connectivity |
| Surround.MaxStep | src/driver_old/dr_exoII_io.c:496-499 | raising the maximum to the incremented length keeps it the largest list length, or the starting value |
| Surround.AppendElem | src/driver_old/dr_exoII_io.c:496-514 | the node's count goes up by one; its storage grows by LIST_ALLOC when full; the element is appended after the old entries; no other node changes |
| Surround.ScanNode | src/driver_old/dr_exoII_io.c:484-514 | one connectivity entry moves the scan state from entry `inode` to `inode + 1`: the lists, capacities and maximum stay consistent |
| Surround.ScanElement | src/driver_old/dr_exoII_io.c:483-515 | scanning element `ielem` turns the lists of elements `0..ielem` into those of `0..ielem+1` |
| Surround.FindSurndElem | src/driver_old/dr_exoII_io.c:453-522 | every node's list is exactly the increasing list of the local elements whose connectivity names it; the capacity is `AllocFor` of the length; `maxNsur` is at least every non-zero length and is either one of them or the starting value |
| Intersect.FindInter | src/driver_old/dr_exoII_io.c:622-624 | the intersection of two sorted lists, given as strictly increasing positions into the first list, picks exactly the first list's entries that occur in the second |
| Intersect.CommonMembership | src/driver_old/dr_exoII_io.c:617-631 | an element survives `k` intersections exactly when it is on all of the first `k + 1` lists |
| Intersect.CommonShrinks | src/driver_old/dr_exoII_io.c:622-631 | each further intersection can only shrink the candidates |
| Intersect.CommonIncreasing | src/driver_old/dr_exoII_io.c:617-631 | the candidates stay sorted when the first list is sorted |
| Intersect.PositionsAhead | src/driver_old/dr_exoII_io.c:629-630 | the k-th of the increasing positions is at least k, so compacting in place reads no slot that was already overwritten |
| Intersect.Compact | src/driver_old/dr_exoII_io.c:628-630 | after compaction in place, the front of the hold buffer holds the entries at the given positions, in order |
| Intersect.CopyFirst | src/driver_old/dr_exoII_io.c:617-620 | the first node's list is copied to the front of the hold buffer |
| Intersect.Narrow | src/driver_old/dr_exoII_io.c:611-632 | after `steps` intersections that stop once fewer than two candidates remain, the candidates are at the front of the hold buffer when more than one is left, and there are none otherwise |
| Adjacency.Steps | src/driver_old/dr_exoII_io.c:611-613 | the number of intersections is `min(num_dims, side_cnt) - 1` |
| Adjacency.SideNodesOf | src/driver_old/dr_exoII_io.c:597-599 | a side has at least one node, and each of its nodes is a local node |
| Adjacency.InitSlots | src/driver_old/dr_exoII_io.c:575-591 | an element gets one slot per side, every slot starts with no neighbour, process -1 and weight 0, and the rest of the record is kept |
| Adjacency.ValidateFacts | src/driver_old/dr_exoII_io.c:645-688 | the neighbour a side keeps is a candidate other than the element itself with a positive side lookup; the check fails exactly when another candidate's lookup is negative; it confirms nothing exactly when every other candidate's lookup is 0 |
| Adjacency.ConfirmCands | src/driver_old/dr_exoII_io.c:645-688 | the candidate loop leaves the slot and `nadj` as the tally of confirmed candidates says, and stops with failure at the first negative lookup |
| Adjacency.ValidateFailedStays | src/driver_old/dr_exoII_io.c:683-686 | after a failed lookup, later candidates change nothing |
| Adjacency.ExamineSide | src/driver_old/dr_exoII_io.c:596-689 | examining a side narrows its candidates, confirms them when at least two remain, and records the side's tally |
| Adjacency.SidesFailedStays | src/driver_old/dr_exoII_io.c:683-686 | once a side has failed, later sides leave the record as it was |
| Adjacency.ExamineSides | src/driver_old/dr_exoII_io.c:594-690 | the sides are examined in order from fresh slots, stopping at the first failing side |
| Adjacency.BuildElemAdjacency | src/driver_old/dr_exoII_io.c:565-691 | an element of at most one node is skipped; a negative side count fails; otherwise every side is examined from fresh slots |
| Adjacency.MeshFailedStays | src/driver_old/dr_exoII_io.c:570-573 | once an element has failed, the later elements are not processed |
| Adjacency.AdjacencyPass | src/driver_old/dr_exoII_io.c:563-692 | the loop over elements leaves the records of `MeshAdjacency` and succeeds exactly when no element failed |
| Adjacency.ApplyTallyFacts | src/driver_old/dr_exoII_io.c:665-672 | recording a side fills only that side's slot, with the last confirmed neighbour, `Proc` and the weight; `nadj` rises by at least the change in filled slots, and by exactly that when at most one candidate was confirmed |
| Adjacency.SidesSlots | src/driver_old/dr_exoII_io.c:594-690 | after `k` sides each examined slot holds what its tally leaves, and the later slots are still fresh |
| Adjacency.SidesCount | src/driver_old/dr_exoII_io.c:665-666 | after `k` sides `nadj` has grown by at least the number of filled slots, and by exactly that number when no side confirmed two candidates |
| Adjacency.ElemSlots | src/driver_old/dr_exoII_io.c:575-691 | after a successful build, an element of more than one node has `adj_len` equal to its side count; every slot is either empty with no confirmation or names a confirmed other element on `Proc`, weighted by the side's node count; `nadj` is at least the number of filled slots and equal to it when no side confirms two candidates |
| Adjacency.OneDimensionNoAdjacency | src/driver_old/dr_exoII_io.c:611-639 | with `num_dims <= 1` no intersection is made, so every side stays without a neighbour and `nadj` does not change |
| Adjacency.MeshPerElement | src/driver_old/dr_exoII_io.c:563-692 | a successful pass leaves every local record as its own build made it, and the spare slots untouched |
| Adjacency.MeshKeepsIdentity | src/driver_old/dr_exoII_io.c:563-692 | adjacency construction, failed or not, never changes an element's block, connectivity or global id |
| Adjacency.MeshSkipsPoint | src/driver_old/dr_exoII_io.c:567-568 | an element of at most one node (circle, sphere) keeps its record exactly as it was, whether or not the pass failed |
| Adjacency.CandidateTouchesSide | src/driver_old/dr_exoII_io.c:617-631 | every candidate of a side is a local element whose connectivity names each side node used in the intersections |
| Adjacency.OwnElementAmongCandidates | src/driver_old/dr_exoII_io.c:634-647 | an element always survives its own side's intersections, so a side with candidates lists the element itself and at least one other element |
| Adjacency.FindAdjacency | src/driver_old/dr_exoII_io.c:528-697 | the element records become those of `MeshAdjacency` over the mesh's lists and tables, and the result is 1 exactly when no element failed |
| CommMap.FlagBorder | src/driver_old/dr_exoII_io.c:744-746 | exactly the listed (1-based) border elements get the border flag, and nothing else changes |
| CommMap.FlaggedOnlyBorder | src/driver_old/dr_exoII_io.c:744-746 | flagging changes only the border field, sets it on every listed element, and flagging twice is flagging once |
| CommMap.LocalizeCommElems | src/driver_old/dr_exoII_io.c:805-808 | every map entry's element id is lowered by one, and the value sent for it is that element's global id |
| CommMap.TotalLength | src/driver_old/dr_exoII_io.c:772-774 | `max_len` is the sum of all map sizes |
| CommMap.MapIdAt | src/driver_old/dr_exoII_io.c:839-865 | entry `i` of map `m` sits at offset `Total(cnt, m) + i`, and that entry is tagged with map `m`'s id |
| CommMap.ApplyEntry | src/driver_old/dr_exoII_io.c:847-862 | an entry always raises its element's `nadj` by one and keeps its side layout and block |
| CommMap.EntriesFailedStay | src/driver_old/dr_exoII_io.c:853-854 | after the overflow failure, later entries change nothing |
| CommMap.ApplyEntryAt | src/driver_old/dr_exoII_io.c:841-862 | processing one entry is one step of the `ApplyEntries` fold: raise `nadj`, fail on overflow, otherwise write the slot |
| CommMap.ApplyMap | src/driver_old/dr_exoII_io.c:840-865 | processing one map advances the fold over its entries, or ends with the whole pass failed |
| CommMap.MapTagged | src/driver_old/dr_exoII_io.c:838-866 | the entries of map `iMap` start at `Total(cnt, iMap)` and carry its id |
| CommMap.ApplyAllMaps | src/driver_old/dr_exoII_io.c:838-866 | the map loop leaves the records of `ApplyEntries` over all entries, and succeeds exactly when that fold did not fail |
| CommMap.ApplyCommMaps | src/driver_old/dr_exoII_io.c:837-866 | the same, applied to the maps stored in the mesh |
| CommMap.ReadCommMapInfo | src/driver_old/dr_exoII_io.c:703-868 | the mesh stores the maps with 0-based element ids; the values sent are the named elements' global ids; the records are those of the entries' fold applied to the border-flagged records; the result reports whether it failed |
| CommMapFacts.CountsRise | src/driver_old/dr_exoII_io.c:847-855 | until the pass fails, each element's `nadj` has risen once per entry naming it, and stays within its side count |
| CommMapFacts.FailsIffOverfull | src/driver_old/dr_exoII_io.c:847-855 | the pass fails exactly when some element's `nadj` plus the number of entries naming it exceeds its `adj_len` |
| CommMapFacts.UnnamedUnchanged | src/driver_old/dr_exoII_io.c:839-866 | an element no entry names is left exactly as it was |
| CommMapFacts.SlotKept | src/driver_old/dr_exoII_io.c:858-862 | a side slot that no entry names keeps its neighbour, process and weight |
| CommMapFacts.SlotJustWritten | src/driver_old/dr_exoII_io.c:858-862 | right after an entry, slot `sideid - 1` of its element holds the received neighbour id, the map id as process, and the side's node count as weight |
| CommMapFacts.SlotWritten | src/driver_old/dr_exoII_io.c:858-862 | after a successful pass, every entry's slot holds that entry's values, unless a later entry names the same slot |
| CommMapFacts.CountsStayFilled | src/driver_old/dr_exoII_io.c:847-862 | when entries fill distinct, still empty slots with real neighbours, a successful pass keeps `nadj` equal to the number of filled slots |
| ElemReader.MaxConnectLen | src/driver_old/dr_exoII_io.c:314-317 | the connectivity buffer size is the largest `eb_cnts * eb_nnodes` over the blocks, or 0 |
| ElemReader.Filled | src/driver_old/dr_exoII_io.c:328-393 | reading the first `k` blocks leaves every place from the end of block `k - 1` on untouched |
| ElemReader.ReadElement | src/driver_old/dr_exoII_io.c:340-368 | one place gets border 0, the mapped global id, the block, `nadj` and `adj_len` 0, unit weights and the row's node numbers made 0-based; no other place changes |
| ElemReader.ReadBlock | src/driver_old/dr_exoII_io.c:337-391 | the block's elements fill consecutive places from `start` on, in file order |
| ElemReader.ReadElemBlocks | src/driver_old/dr_exoII_io.c:328-393 | every block is read in turn into the places right after the previous block's |
| ElemReader.FilledAt | src/driver_old/dr_exoII_io.c:328-393 | row `i` of block `b` lands in place `Total(b) + i`, so the blocks are laid out in file order with no gap and no overlap |
| ElemReader.ReadIsValid | src/driver_old/dr_exoII_io.c:364-368 | each element read names a known block, has that block's node count and names local nodes only |
| ElemReader.TranslateElement | src/driver_old/dr_exoII_io.c:434-436 | one element's connectivity is replaced by the node map's global numbers; nothing else changes |
| ElemReader.TranslateConnect | src/driver_old/dr_exoII_io.c:432-437 | every local element's connectivity, and only that, is renumbered through the node map |
| ElemReader.SurroundCtx | src/driver_old/dr_exoII_io.c:414-426 | the lists built by the node-to-element index are sorted, local and within `max_nsur`, which is what adjacency construction needs |
| ElemReader.AdjacencyKeepsValid | src/driver_old/dr_exoII_io.c:423-437 | connectivity stays valid across adjacency construction, so the renumbering reads only valid node numbers |
| ElemReader.ReadAndSurround | src/driver_old/dr_exoII_io.c:328-417 | the blocks are read as `Filled` says, and the node-to-element lists built over them match the mesh |
| ElemReader.ReadElemInfo | src/driver_old/dr_exoII_io.c:253-447 | the blocks are read, the lists and the adjacency are built over the records read, and, only when adjacency succeeded, the connectivity is renumbered; the result says which |
| ElemReader.ReadRecordsFromFile | src/driver_old/dr_exoII_io.c:328-437 | element `i` of block `b` ends in place `Total(b) + i` with the element map's global id and block `b`; its connectivity holds the file's nodes as global numbers after success and as 0-based local numbers after failure |
| ElemReader.ReadPointsHaveNoSides | src/driver_old/dr_exoII_io.c:343-344 | an element of a block with at most one node per element ends with `adj_len` 0 and `nadj` 0, whether or not reading succeeded, since adjacency construction skips it |
| LoadBal.SearchByGlobalId | src/driver_old/dr_loadbal.c:512-537 | finds the first slot, among all allocated ones, holding the global id; when there is none it reports not found and leaves `idx` as it was |
| LoadBal.FirstHolding | src/driver_old/dr_loadbal.c:512-537 | the first slot at or after a start holding a global id: it holds the id, and no slot between the start and it does |
| LoadBal.CurrentElem | src/driver_old/dr_loadbal.c:401-403 | the element a query is about (`Target`) is the local id when local ids are in use, otherwise the first slot holding the global id |
| LoadBal.GetNumElements | src/driver_old/dr_loadbal.c:254-267 | returns `num_elems` with LB_OK, or 0 with LB_FATAL when there is no mesh |
| LoadBal.GetNumGeom | src/driver_old/dr_loadbal.c:365-378 | returns `num_dims` with LB_OK, or 0 with LB_FATAL when there is no mesh |
| LoadBal.CopyWeights | src/driver_old/dr_loadbal.c:301-307 | the first `wdim` CPU weights, in order, or none when `wdim` is not positive |
| LoadBal.GetFirstElement | src/driver_old/dr_loadbal.c:272-310 | LB_FATAL and 0 without a mesh; 0 with no element; otherwise 1 with element 0's global id, local id 0 when local ids are in use, and its first `wdim` weights |
| LoadBal.GetNextElement | src/driver_old/dr_loadbal.c:315-360 | returns 1 exactly when `idx + 1 < num_elems`, with element `idx + 1`'s ids and weights and LB_OK; otherwise returns 0 and leaves the ids and error code unchanged |
| LoadBal.WalkFromVisitsRest | src/driver_old/dr_loadbal.c:344-359 | from element `i`, repeated next-element calls visit `i`, `i + 1`, ... up to the last element and then stop |
| LoadBal.IteratorVisitsAll | src/driver_old/dr_loadbal.c:272-360 | first-element followed by next-element calls visit every local element exactly once, in local order |
| LoadBal.GetNumEdges | src/driver_old/dr_loadbal.c:429-452 | returns the `nadj` of the element the query names (`Target`: the local id, or the first slot holding the global id) with LB_OK, or LB_FATAL without a mesh |
| LoadBal.EdgesCount | src/driver_old/dr_loadbal.c:483-505 | the edge list has one entry per slot whose neighbour is not -1 |
| LoadBal.EdgeOfSlot | src/driver_old/dr_loadbal.c:483-505 | every populated slot is reported, in side order; a local neighbour is reported by its global id, a remote one by the stored id; the process is the slot's |
| LoadBal.SlotOfEdge | src/driver_old/dr_loadbal.c:483-505 | every reported edge comes from a populated slot |
| LoadBal.UnweightedEdgesWeighOne | src/driver_old/dr_loadbal.c:499-500 | an element without a weight array reports every edge with weight 1.0 |
| LoadBal.EdgeListMatchesCount | src/driver_old/dr_loadbal.c:451 | the edge list has `nadj` entries whenever `nadj` counts the populated slots |
| LoadBal.GetEdgeList | src/driver_old/dr_loadbal.c:457-508 | the outputs are the neighbours and processes of the element's edges in side order; the weights are reported only when asked for, each the slot's weight or 1.0 when the element has none; nothing is written to the mesh |
| LoadBal.GetGeom | src/driver_old/dr_loadbal.c:383-424 | LB_FATAL without a mesh; otherwise the element is `Target`, and the result is LB_FATAL exactly when that element's block has no nodes, LB_OK otherwise |

## Left out

- File input is not modelled. This covers the Exodus II / Nemesis calls in `read_exoII_mesh`, `read_elem_info` and `read_comm_map_info`, and the existence check. Their outputs become parameters: the block metadata of the `Mesh` constructor, the element and node maps `emap` and `nmap`, the per-block connectivity `conn`, the border elements and the communication maps.
- Inter-process communication is not modelled. This covers the reductions of block metadata, the handshake and exchange of the communication maps, and `MPI_Comm_rank` in `get_edge_list`. The ids received from neighbours are an input (`received`), the ids sent are an output (`sent`), and the calling process is a parameter (`proc`).
- Coordinates are not modelled. This covers the coordinate reading and copying in `read_elem_info` and the centroid averaging of `get_geom`, which is floating point. Only the error checks of `get_geom` are modelled.
- CPU, memory and edge weights, stored as `float` in the source, are modelled as `real`, since only copies and small integer values are involved.
- Allocation failures are not modelled: every `malloc`/`realloc` is taken to succeed, so the insufficient-memory branches are not modelled. Storage growth in `find_surnd_elem` is modelled as extending the node's list by LIST_ALLOC slots.
- ElemTypes.ElemTable: the element-type helpers `get_elem_info`, `ss_to_node_list`, `get_ss_mirror` and `get_side_id` are not part of this model. The model uses caller-chosen functions instead. The only constraints are that every side lists at least one node position and that these positions fall within the connectivity.
- Intersect.FindInter: `find_inter` is not part of this model. It is modelled, for the sorted-lists mode the driver calls, as a merge that returns positions into the first list.
- `initialize_element` is not part of this model. Unused element slots are `MeshData.UnusedElem`. `ReadRecord` keeps every field it does not set from the slot's previous record.
- `setup_zoltan`, `run_zoltan`, `read_exoII_mesh` (beyond element allocation), debug tracing and printing are outside the modelled driver core.
- ElemReader.ReadBlock: the source walks a block's flat connectivity buffer with a running counter `cnode`. The model takes the block as one row of `eb_nnodes` node numbers per element, which is the same data in the same order. `ElemReader.MaxConnectLen` computes the buffer size on its own, and since no read goes through a buffer, the reader does not call it.
- ElemReader.ReadElemInfo: requires the file to be consistent: node numbers in `1..num_nodes`, `num_elems` equal to the sum of the block counts, a CPU weight in every filled slot, and side layouts within each block's connectivity (`TableFits`). The source does not check these.
- CommMap.ReadCommMapInfo: requires the maps to be consistent with the records: the border element list and the map element ids in range of the element slots, sides within the element's side count, and known blocks. The source does not check these.
- Adjacency.ElemSlots: states `nadj >= filled slots`, with equality only when no side confirms two candidates. The source increments `nadj` once per confirmed candidate but keeps only the last one in the slot.
- LoadBal.GetNextElement: requires that the named element exists, as do LoadBal.GetNumEdges, LoadBal.GetEdgeList and LoadBal.GetGeom. With local ids, the local id must be a valid slot. Without them, some slot must hold the global id. This is a protocol assumption: the partitioner passes back ids that these callbacks produced. On the global-id path the source would otherwise use an index it never set. `get_next_element` with local ids reads no slot before its `idx + 1 < num_elems` test, so there the model asks for more than the source.
- LoadBal.GetGeom: also requires that the block of the element it names is a known block, since the source looks up that block's node count. LoadBal.GetEdgeList also requires, of the element it names, that `adj` and `adj_proc` have `adj_len` entries, that a weight array, if present, has `adj_len` entries too, and that every neighbour on this process is a valid slot (`Reportable`), since the source indexes these arrays up to `adj_len` and `elem` by the neighbour. An element with slots but no weight array is allowed, and its edges weigh 1.0. Both requirements concern only the named element (`LoadBal.Target`).
- LoadBal.GetFirstElement: requires every local element to carry at least `wdim` CPU weights (`WeightsAvailable`), as does LoadBal.GetNextElement. The source reads past the weight array otherwise.
- LoadBal.GetNextElement: the case where no element follows leaves the error code as the caller passed it (`ierrIn`). This is what the source does.
- Global and local ids are modelled by their last entry only, the one the callbacks read and write. The callbacks fill the caller's output arrays, and the model returns these as sequences.
