# liblwgeom: verified models of ten algorithms

PostGIS does most of its geometry work in liblwgeom, a C library. This project models ten of its
algorithms in Dafny, in the form the C code has (arrays and structs updated in place, cursors,
loops, recursion), and proves what each of them is for.

| files | C source | what is proved |
|---|---|---|
| `AreaHeap`, `EffectiveArea`, `EffectiveAreaStore` | effectivearea.c | the heap and the linked list stay right through every round of the Visvalingam elimination; the "wrong order" error never fires; the elimination is the plain algorithm; stopping early keeps exactly the same points |
| `UnionFind`, `Dbscan` | lwunionfind.c, lwgeom_geos_cluster.c | clusters are the density-connected components, for every order of the points; a call fails only over a query or a distance that is not available |
| `Gserialized2`, `Gserialized2Laws`, `Gserialized2Buffer`, `NurbsKnots`, `Doubles`, `CollectionTypes` | gserialized2.c, lwcollection.c, lwgeom.c | size, writer, validator and reader agree: round trip, exact sizes, no read outside a validated payload, validation exactly characterised; which collections of valid members are valid; what the tests of weights and knots mean for the values stored |
| `GserializedCmp` | gserialized.c | the comparison is a total order among values with as many ordinates a point; a set of Z/M classes is ordered transitively, whatever the key, exactly when all have one dimension count |
| `IntervalTreeIndex`, `IntervalTree` | intervaltree.c | the packed index answers as a linear winding-number scan; node space suffices; the flat walk over a multipolygon answers as a scan of its polygons |
| `CircDiscs`, `CircTree`, `CircShapes`, `CircTreeSearch`, `CircPacking`, `CircArena` | lwgeodetic_tree.c | the pruned search finds two points of the shapes of which none are nearer, or something below the threshold; packing conserves leaves; when merged discs cover their parts, and that a tree packed so is one the search is right on; what a leaf with a collection type hides |
| `BezierCurve`, `BezierSpan`, `BezierRefinement`, `BezierBox` | gbox.c | the box of a rational Bezier span holds the curve, stays inside the box of the control hull, is exact in single precision where the recursion converges, and exceeds the curve by no more than 53 halvings leave of its control steps |
| `Geohash` | lwalgorithm.c | encoder and decoder undo each other; automatic precision gives the longest hash whose cell holds the box, over all hashes |
| `Lookup3`, `Lookup3Vectors` | lookup3.c | word, half-word and byte reads give one hash; both mixings are reversible; a known hash of thirty bytes |
| `MultiPoint` | lwgeom.c | two sort-and-sweep passes leave points that are pairwise far apart, near every point removed |

`Common` holds the vocabulary that several models share, `Sorting` the library sort.

How the models are built. Arithmetic on coordinates is over `real`; in the serializer doubles are
eight opaque bytes, compared as IEEE-754 numbers where the code compares them. Sizes, words and
cursors are integers, with the width written out where the code depends on it (`SIZE_MAX` sums in
the validator, 32-bit words in the hash, 21-bit SRIDs). What the code takes from elsewhere is a
parameter: triangle areas, distances and tree queries of the clustering, the metric and the
edge routines on the sphere, the sortable hash, rounding to single precision. `lwerror` becomes an
error result, or a branch that is proved never to be taken.

A method that changes state is proved equal to a function on values (`DownF`, `StepF`, `Merged`,
`Encode`, `IndexRing`, `AddSpan`, `Pack`, `Hash`), and the lemmas state what those functions
promise.

## Model

| member | source | states |
|---|---|---|
| AreaHeap.DownF | liblwgeom/effectivearea.c:123-162 | sifting down keeps the heap a permutation of the same points and every `treeindex` naming its own slot |
| AreaHeap.UpF | liblwgeom/effectivearea.c:169-192 | the same for sifting up, with `(0-1)/2 == 0` so that the root is its own parent |
| AreaHeap.PopF | liblwgeom/effectivearea.c:199-211 | popping takes exactly the root out of the heap and leaves the back-pointers right |
| AreaHeap.RefreshF | liblwgeom/effectivearea.c:218-228 | giving a point a new area changes no other area, no link and no membership |
| AreaHeap.DownRestoresOrder | liblwgeom/effectivearea.c:123-162 | a heap out of order only at one slot, downwards, is in order after sifting that slot down |
| AreaHeap.UpRestoresOrder | liblwgeom/effectivearea.c:169-192 | a heap out of order only at one slot, upwards, is in order after sifting that slot up |
| AreaHeap.PopKeepsOrder | liblwgeom/effectivearea.c:199-211 | an ordered heap is ordered after a pop |
| AreaHeap.RefreshKeepsOrder | liblwgeom/effectivearea.c:218-228 | an ordered heap is ordered after any one area changes and is updated, whichever way it moved |
| AreaHeap.RootIsLeast | liblwgeom/effectivearea.c:194-211 | the root of an ordered heap has the least area of all points in it |
| EffectiveArea.RootIsLeastInterior | liblwgeom/effectivearea.c:276-277 | the point popped is an interior point of the remaining chain with the least effective area, never an end |
| EffectiveArea.EliminatedKeepsChain | liblwgeom/effectivearea.c:292-334 | relinking the neighbours of the popped point leaves `prev` and `next` one increasing chain from 0 to n-1 over exactly the points still in the heap |
| EffectiveArea.EliminatedKeepsOrder | liblwgeom/effectivearea.c:299-330 | recomputing and updating both neighbours keeps the heap in order |
| EffectiveArea.EliminatedIsSettled | liblwgeom/effectivearea.c:276-334 | after a round every remaining point carries the effective area that the plain algorithm gives it over the new chain |
| EffectiveArea.StepPops | liblwgeom/effectivearea.c:276-288 | the area recorded in a round is the popped point's, or FLT_MAX for the last points kept, and is never below the one before |
| EffectiveArea.StepKeepsInvariant | liblwgeom/effectivearea.c:274-340 | one round keeps heap order, back-pointers, chain, areas and recorded results together |
| EffectiveArea.LastPointIsRoot | liblwgeom/effectivearea.c:279-283 | when FLT_MAX ties with the ends, the one interior point left is still the root |
| EffectiveArea.RunUnfolds | liblwgeom/effectivearea.c:274-340 | a round removes one point from the chain, records its area alone, and goes on exactly when neither stop rule fires |
| EffectiveArea.RunBounds | liblwgeom/effectivearea.c:274-340 | a run changes only results not yet recorded, and those only to areas no smaller than the last one |
| EffectiveArea.EarlyStopIsExact | liblwgeom/effectivearea.c:336-338 | from any state of the loop, the run that stops at the threshold and the full run agree on which points reach the threshold |
| EffectiveArea.RunIsPlain | liblwgeom/effectivearea.c:234-342 | the results of the heap-driven run are those of the plain algorithm, which rescans the remaining points for the least area each round |
| EffectiveArea.SortedIsUnique | liblwgeom/effectivearea.c:105-116 | the comparator orders any two different points, so every sort gives one order |
| EffectiveArea.FirstIsLeftmost | liblwgeom/effectivearea.c:105-116 | the first key is the leftmost of the points with the least area |
| EffectiveArea.InitialIsGood | liblwgeom/effectivearea.c:253-270 | sorted keys with their slots filled in are a heap that meets the loop invariant |
| EffectiveAreasStore.RoundDecides | liblwgeom/effectivearea.c:285-338 | recorded areas never fall, and the loop's stop test on `next` and the threshold is the test of the run |
| EffectiveAreasStore.EffectiveAreas.Down | liblwgeom/effectivearea.c:123-162 | the in-place loop ends in the heap `DownF` gives |
| EffectiveAreasStore.EffectiveAreas.Up | liblwgeom/effectivearea.c:169-192 | the in-place loop ends in the heap `UpF` gives |
| EffectiveAreasStore.EffectiveAreas.MinheapPop | liblwgeom/effectivearea.c:199-211 | returns the old root and leaves the heap `PopF` gives |
| EffectiveAreasStore.EffectiveAreas.MinheapUpdate | liblwgeom/effectivearea.c:218-228 | moves one slot up or down as its area requires, leaving the heap `UpdateF` gives |
| EffectiveAreasStore.EffectiveAreas.Qsort | liblwgeom/effectivearea.c:262 | the keys become a permutation of all points in the comparator's order |
| EffectiveAreasStore.EffectiveAreas.Round | liblwgeom/effectivearea.c:276-334 | one pass through the loop body leaves exactly the state `StepF` gives |
| EffectiveAreasStore.EffectiveAreas.TuneAreas | liblwgeom/effectivearea.c:234-342 | the loop terminates, never raises the wrong-order error, and fills in the outcome of the run |
| EffectiveAreasStore.EffectiveAreas.CalcAreas | liblwgeom/effectivearea.c:349-401 | starting areas and links are set up so that the elimination yields the outcome of a fresh run |
| EffectiveAreasStore.SurvivorsAreFinal | liblwgeom/effectivearea.c:279-283 | in a full run as many points get FLT_MAX as must not be lost, at least two and at most all, and the two ends are among them |
| EffectiveAreasStore.SetEffectiveArea | liblwgeom/effectivearea.c:405-452 | the points returned are, in order, those to which a full run of the plain algorithm gives an area that reaches the threshold, whether or not the loop stopped early; with `set_area` each carries that area as M; up to a threshold of FLT_MAX the ends are returned and no fewer points than must survive, and at FLT_MAX exactly those |
| EffectiveAreasStore.ThresholdRunIsExact | liblwgeom/effectivearea.c:336-338 | the points kept when the loop stops early are the points kept by the full run |
| EffectiveAreasStore.OutcomeIsPlain | liblwgeom/effectivearea.c:234-342 | the outcome is that of the plain algorithm, whatever order the sort chose |
| UnionFind.CompressKeepsRoot | liblwgeom/lwunionfind.c:62-76 | pointing the nodes of a path at its root changes no representative |
| UnionFind.LinkMerges | liblwgeom/lwunionfind.c:85-110 | hanging one root under another merges exactly their two classes |
| UnionFind.UnionJoinsTwoClasses | liblwgeom/lwunionfind.c:85-110 | after a union two elements are together exactly when they were, or each was in one of the two classes |
| UnionFind.LinkKeepsSizes | liblwgeom/lwunionfind.c:95-109 | sizes stay the cardinalities of the classes, and zero off the roots |
| UnionFind.UnionFind.Find | liblwgeom/lwunionfind.c:62-76 | returns the representative and compresses the path without changing any class |
| UnionFind.UnionFind.Union | liblwgeom/lwunionfind.c:85-110 | merges two classes under the larger one's representative, the lower on a tie, and counts clusters down only when they differed |
| Dbscan.NewCoreSeparated | liblwgeom/lwgeom_geos_cluster.c:592-596 | a point found to be a core does not yet join classes it is not connected to |
| Dbscan.NeighbourSkipped | liblwgeom/lwgeom_geos_cluster.c:393-411 | leaving a neighbour alone that belongs to another cluster and is no core keeps the invariant |
| Dbscan.NeighbourJoined | liblwgeom/lwgeom_geos_cluster.c:393-411 | joining a core with an available neighbour keeps classes of cores connected and border points attached to a core within eps |
| Dbscan.CoreFound | liblwgeom/lwgeom_geos_cluster.c:592-601 | marking a core and flushing its collected neighbours keeps the invariant |
| Dbscan.ClusteredByAllCores | liblwgeom/lwgeom_geos_cluster.c:489-630 | once every core has been compared with all its neighbours, the classes are the density clusters |
| Dbscan.UnionIfAvailable | liblwgeom/lwgeom_geos_cluster.c:393-411 | unites when the neighbour is unclustered or a core, and then marks it clustered; otherwise changes nothing |
| Dbscan.VisitPoint | liblwgeom/lwgeom_geos_cluster.c:534-616 | one pass of the outer loop keeps the invariant for every order of candidates, and fails only when the query fails or the distance to a candidate cannot be computed |
| Dbscan.UnionDbscanGeneral | liblwgeom/lwgeom_geos_cluster.c:489-630 | on success cores are together exactly when a chain of cores joins them, a point is clustered exactly when it is a core or within eps of one, a clustered border point shares the class of such a core, and every other point is alone; a failure names a point whose query or distances are not available |
| Dbscan.UnionDbscanMinpoints1 | liblwgeom/lwgeom_geos_cluster.c:419-486 | with one point needed, classes are the components of "within eps"; a distance that cannot be computed ends the comparisons of one point only and makes the call fail, as nothing else but a failed query does, and even then no class joins points that no chain joins |
| Dbscan.UnionDbscan | liblwgeom/lwgeom_geos_cluster.c:633-644 | the dispatch on min_points gives the promise of the branch it takes, success included |
| Gserialized2Laws.EncodedSize | liblwgeom/gserialized2.c:1066-1293 | the bytes written for a geometry are as many as the size function says |
| Gserialized2Laws.DecodeWritten | liblwgeom/gserialized2.c:1952-2465 | reading the written bytes, whatever follows them, gives the geometry back and consumes exactly them |
| Gserialized2Laws.CheckLocal | liblwgeom/gserialized2.c:401-572 | a validated size depends only on the bytes within it |
| Gserialized2Laws.PrefixFree | liblwgeom/gserialized2.c:401-572 | no valid payload is a proper prefix of another of the same dimensions |
| Gserialized2Laws.CheckedReads | liblwgeom/gserialized2.c:401-572 | whatever bytes validate, the reader succeeds on them and consumes the validated size |
| Gserialized2Laws.ReadIsChecked | liblwgeom/gserialized2.c:1952-2465 | whatever the reader accepts within its bytes and size limits validates with the size it consumed |
| Gserialized2Laws.ReadAtLeast | liblwgeom/gserialized2.c:1952-2465 | a geometry never takes more bytes than its read consumed |
| Gserialized2Laws.ValidatorIsExact | liblwgeom/gserialized2.c:401-572 | validation succeeds with a size exactly when the reader succeeds, consumes that size and stays within the bytes |
| Gserialized2Laws.WrittenIsChecked | liblwgeom/gserialized2.c:401-572 | every well-formed geometry, once written, validates with its size |
| Gserialized2Laws.ReadLocal | liblwgeom/gserialized2.c:1952-2465 | a read within its bytes gives the same geometry on any bytes that agree there |
| Gserialized2Buffer.AnySize | liblwgeom/gserialized2.c:1260-1293 | the recursive size computation gives the number of bytes written |
| Gserialized2Buffer.WriteAny | liblwgeom/gserialized2.c:1781-1821 | puts the encoding at the cursor, returns its size and leaves every other byte alone |
| Gserialized2Buffer.WriteSimple | liblwgeom/gserialized2.c:1324-1396 | the same for points, lines, triangles and circular strings |
| Gserialized2Buffer.WritePolygon | liblwgeom/gserialized2.c:1398-1450 | the same for polygons: ring table, padding to eight bytes, ordinates |
| Gserialized2Buffer.WriteCollection | liblwgeom/gserialized2.c:1544-1575 | the same for collections of any depth |
| Gserialized2Buffer.WriteNurbs | liblwgeom/gserialized2.c:1595-1766 | the same for NURBS curves: counts, padding, weights, knots, control points |
| Gserialized2Buffer.SumRingTable | liblwgeom/gserialized2.c:452-464 | adds up the bytes of all rings of a ring table, failing on overflow |
| Gserialized2Buffer.CheckNurbsVectors | liblwgeom/gserialized2.c:72-140 | accepts exactly counts that fit the degree, finite positive weights, and knots of which each but the first is finite and not below the one before it |
| NurbsKnots.AcceptedKnots | liblwgeom/gserialized2.c:122-134 | a non-empty knot vector is accepted with a finite first knot exactly when all its knots are finite and never fall: the first knot itself is not tested |
| NurbsKnots.NanKnotIsAccepted | liblwgeom/gserialized2.c:122-134 | the knots NaN, 0, 0, 0 are accepted, and a curve with them is written and validates |
| Doubles.KeysOrderValues | liblwgeom/gserialized2.c:112-131 | comparing the bytes of finite doubles as sign and magnitude compares the values of their IEEE-754 fields |
| Doubles.TestsOnValues | liblwgeom/gserialized2.c:112-131 | weights and knots are tested for finite positive values, and for finite values not below a number before them |
| Gserialized2Buffer.ValidatePolygon | liblwgeom/gserialized2.c:435-472 | accepts a polygon exactly when `Check` does, with its size |
| Gserialized2Buffer.ValidateNurbs | liblwgeom/gserialized2.c:514-556 | accepts a NURBS curve exactly when `Check` does, with its size |
| Gserialized2Buffer.ValidateMembers | liblwgeom/gserialized2.c:484-510 | accepts the members of a collection exactly when `Check` does, subtype by subtype |
| Gserialized2Buffer.ValidateBuffer | liblwgeom/gserialized2.c:401-572 | the cursor-based validator computes `Check` of the bytes between cursor and end |
| Gserialized2Buffer.ReadRingArrays | liblwgeom/gserialized2.c:2018-2078 | reads ring counts and ordinates with two cursors, giving the rings of the value |
| Gserialized2Buffer.ReadNurbs | liblwgeom/gserialized2.c:2245-2405 | reads a NURBS curve as `Decode` does, testing its vectors and rejecting invalid ones |
| Gserialized2Buffer.ReadMembers | liblwgeom/gserialized2.c:2164-2220 | reads the members of a collection as `Decode` does, rejecting a subtype that is not allowed before reading it |
| Gserialized2Buffer.ReadAny | liblwgeom/gserialized2.c:2425-2465 | on bytes that it does not read beyond, the recursive reader computes `Decode` from its cursor: the geometry and the bytes consumed, or the rejection of an unknown type or an invalid part |
| Gserialized2Buffer.FromBuffer | liblwgeom/gserialized2.c:2467-2519 | validates first, and then reads without leaving the validated bytes; it succeeds exactly when validation does |
| Gserialized2Buffer.RoundTrip | liblwgeom/gserialized2.c:1888-1944 | writing a well-formed geometry into a buffer of its size and reading the buffer gives it back |
| CollectionTypes.HomogeneousIsAllowed | liblwgeom/lwgeom.c:1380-1403 | every type is allowed in the homogeneous collection that can hold it, and in a collection of anything |
| CollectionTypes.AllowedExactly | liblwgeom/lwcollection.c:513-550 | any other collection allows exactly the types it is the homogeneous collection of, single curves where it is made of curves, and polygons where it is made of faces |
| CollectionTypes.MembersHaveDimension | liblwgeom/lwcollection.c:513-550 | members have the topological dimension of their collection, but for the curves around a curve polygon |
| CollectionTypes.SubtypeCodes | liblwgeom/lwcollection.c:513-550 | the subtypes of every collection by the codes stored |
| CollectionTypes.CollectionIsRead | liblwgeom/gserialized2.c:474-512 | a collection of valid members validates, with eight bytes more than they take together, and reads back as what they read as, exactly when it allows all their types |
| CollectionTypes.HomogeneousIsRead | liblwgeom/gserialized2.c:474-512 | so does the homogeneous collection of any type |
| CollectionTypes.TwoPoints | liblwgeom/gserialized2.c:2164-2220 | the 56 bytes of a multipoint of two planar points validate and read back |
| CollectionTypes.OneRing | liblwgeom/gserialized2.c:2018-2078 | the 80 bytes of a polygon with one ring of four points, its ring table padded, validate and read back |
| GserializedCmp.HeaderSizesAgree | liblwgeom/gserialized.c:307-330 | the header size the comparison computes is the one version 2 computes |
| GserializedCmp.MemcmpTellsApart | liblwgeom/gserialized.c:342-416 | among values with as many ordinates a point, two payloads that `memcmp` finds equal over the common length are equal |
| GserializedCmp.SridTellsApart | liblwgeom/gserialized2.c:299-330 | stored SRID bytes are equal exactly when the sign-extended SRIDs are |
| GserializedCmp.SridRoundTrip | liblwgeom/gserialized2.c:299-330 | an SRID of 21 bits with its sign is read as it was stored |
| GserializedCmp.MemcmpIsLexicographic | liblwgeom/gserialized.c:342-416 | bytes are compared by the first one that differs |
| GserializedCmp.CmpInDimension | liblwgeom/gserialized.c:342-416 | among them the chain of tests compares emptiness and key, then SRID, then Z, then M, then bytes |
| GserializedCmp.CmpZeroIsEquality | liblwgeom/gserialized.c:342-416 | among them the comparison is zero exactly on equal SRIDs, Z and M flags and payloads |
| GserializedCmp.CmpSwaps | liblwgeom/gserialized.c:342-416 | among them swapping the arguments flips the sign |
| GserializedCmp.CmpTransitive | liblwgeom/gserialized.c:342-416 | among them the comparison is transitive, strictly so unless both steps are equalities |
| GserializedCmp.CmpCycles | liblwgeom/gserialized.c:394-411 | for any two dimension counts there are three valid values of mixed SRIDs, each before the next in a circle |
| GserializedCmp.TransitiveExactly | liblwgeom/gserialized.c:342-416 | all stored values of a set of Z/M classes are ordered transitively, for every key, exactly when the classes have one dimension count |
| IntervalTreeIndex.BoundaryIsSegment | liblwgeom/intervaltree.c:336-361 | zero side and the box test together hold exactly for the points of the segment |
| IntervalTreeIndex.CrossingIsToTheRight | liblwgeom/intervaltree.c:398-416 | an edge counts plus or minus one exactly when it rises or falls through the height of the point, lower end included, strictly to its right |
| IntervalTreeIndex.ZeroLengthEdgesDoNotMatter | liblwgeom/intervaltree.c:168-182 | leaving out edges without length changes neither boundary nor winding, unless the whole ring is one point |
| IntervalTreeIndex.ScanOfValidEdges | liblwgeom/intervaltree.c:196-212 | scanning the edges that get a leaf is scanning the whole ring |
| IntervalTreeIndex.AllocatedGrows | liblwgeom/intervaltree.c:46-66 | fewer leaves never need more nodes |
| IntervalTreeIndex.SpaceSuffices | liblwgeom/intervaltree.c:46-66 | the nodes a ring allocates never exceed the nodes reserved for it, whichever edges are skipped |
| IntervalTreeIndex.QuarterOfNodes | liblwgeom/intervaltree.c:115-165 | a round makes a quarter of the nodes, rounded up |
| IntervalTreeIndex.MergeKeepsEdges | liblwgeom/intervaltree.c:116-165 | a round of merging makes parents that list the same edges in the same order, cover their children and have at most four of them |
| IntervalTreeIndex.MergeAllKeepsEdges | liblwgeom/intervaltree.c:214-219 | the rounds end in one root that lists all edges in order |
| IntervalTreeIndex.RingIsIndexed | liblwgeom/intervaltree.c:185-234 | indexing a ring gives a root over exactly its valid edges in order, or none, and changes no earlier node |
| IntervalTreeIndex.PrunedIsIrrelevant | liblwgeom/intervaltree.c:372-379 | a node whose range misses the height of the point has no edge that contains it or adds to its winding |
| IntervalTrees.NumNodesPointarray | liblwgeom/intervaltree.c:46-66 | the counting loop computes the reserved number of nodes, and terminates |
| IntervalTrees.NumNodesMultipolygon | liblwgeom/intervaltree.c:81-90 | adds up the reservations of all rings of all polygons |
| IntervalTrees.IntervalTree.MergeNodes | liblwgeom/intervaltree.c:116-165 | appends exactly the parents of one round; a fresh node is always available |
| IntervalTrees.IntervalTree.AddPointarray | liblwgeom/intervaltree.c:185-234 | appends the nodes of one ring and records root and ring; within the reserved space nothing runs out |
| IntervalTrees.IntervalTree.PointInRingRecursive | liblwgeom/intervaltree.c:365-432 | reports a boundary exactly when an edge below the node contains the point, and otherwise adds the winding of all edges below, pruned or not |
| IntervalTrees.IntervalTree.PointInRing | liblwgeom/intervaltree.c:435-450 | boundary, inside or outside exactly as the scan over every edge of the ring says |
| IntervalTrees.IntervalTree.PointInMultipolygon | liblwgeom/intervaltree.c:461-521 | the walk that hops by ring counts answers as scanning the polygons in order, shell and then holes; an empty or non-finite point is outside |
| IntervalTrees.PolygonInside | liblwgeom/intervaltree.c:484-512 | a point is inside a polygon exactly when it is inside the shell and outside every hole |
| IntervalTrees.FirstHitDecides | liblwgeom/intervaltree.c:477-520 | the answer is that of the first polygon the point is not outside of |
| IntervalTrees.FlattenAt | liblwgeom/intervaltree.c:514-516 | ring r of polygon p lies r places after all usable rings of the polygons before it |
| IntervalTrees.FromPolygon | liblwgeom/intervaltree.c:238-265 | the tree of a polygon holds its usable rings in order |
| IntervalTrees.FromMultipolygon | liblwgeom/intervaltree.c:269-306 | the tree of a multipolygon holds the usable rings of its non-empty polygons in order, in the space reserved |
| IntervalTrees.ShortShell | liblwgeom/intervaltree.c:269-306 | a polygon whose shell has one to three points is not empty, and its first hole is taken for the shell |
| CircTree.ChildDistances | liblwgeom/lwgeodetic_tree.c:588-605 | covered discs are no nearer and reach no further than the discs that cover them |
| CircTree.PointsBetween | liblwgeom/lwgeodetic_tree.c:588-605 | points of two discs are at least the minimum and at most the maximum node distance apart |
| CircTree.BoundsAreReached | liblwgeom/lwgeodetic_tree.c:588-605 | along a line both node distances are reached, so that no better bounds hold in general |
| CircTree.LeafPointsAreNearest | liblwgeom/lwgeodetic_tree.c:740-805 | the points chosen for two leaves lie on their edges, and no others there are nearer |
| CircTree.VertexInDisc | liblwgeom/lwgeodetic_tree.c:460-472 | every vertex below a node lies in its disc |
| CircTree.LeastIsBounded | liblwgeom/lwgeodetic_tree.c:676-863 | the least distance below a pair lies between its minimum and maximum node distance |
| CircTree.LeastIsBelowLeaves | liblwgeom/lwgeodetic_tree.c:740-805 | the least distance is at most that of every pair of leaves below |
| CircTree.LeastIsAttained | liblwgeom/lwgeodetic_tree.c:676-863 | the least distance is that of points a descent can find |
| CircTree.AttainedIsReal | liblwgeom/lwgeodetic_tree.c:676-863 | points a descent finds are the closest points of a pair of leaves, or one vertex that a polygon contains |
| CircTree.NothingIsNearer | liblwgeom/lwgeodetic_tree.c:707-738 | when polygon tests do not depend on the vertex tested, nothing a descent finds is below the least distance |
| CircTree.FoundIsMinimum | liblwgeom/lwgeodetic_tree.c:607-639 | a search result is below the threshold, or no pair of leaves is nearer |
| CircTree.CollectionLeafFirst | liblwgeom/lwgeodetic_tree.c:816-830 | a leaf of the first tree that carries a collection type is found exactly against a leaf |
| CircTree.CollectionLeafSecond | liblwgeom/lwgeodetic_tree.c:816-861 | a leaf of the second tree that carries a collection type is found exactly from nodes that reach a leaf through collections alone |
| CircTree.RetypedPointIsHidden | liblwgeom/lwgeodetic_tree.c:978-1001 | a collection of which one point is not empty is such a leaf, and against a line of two edges nothing is found, either way round |
| CircShapes.ShapesAreNoNearer | liblwgeom/lwgeodetic_tree.c:677-863 | no two points of the two shapes, insides of polygons included, are nearer than the least distance |
| CircShapes.FoundOnShapes | liblwgeom/lwgeodetic_tree.c:677-863 | the points a descent finds belong to the two shapes |
| CircShapes.FoundIsNearest | liblwgeom/lwgeodetic_tree.c:677-863 | a search ends with points of the shapes whose distance is below the threshold, or of which none are nearer |
| CircShapes.RetypedLineIsNeverInside | liblwgeom/lwgeodetic_tree.c:978-1001 | a line that is the one member left of a collection is never found inside a polygon: its edges carry no type once the collection has taken its place |
| CircTreeSearch.CircNodes.GetPoint | liblwgeom/lwgeodetic_tree.c:460-472 | the point returned is a vertex below the node, whatever order its children are in |
| CircTreeSearch.CircNodes.SortChildren | liblwgeom/lwgeodetic_tree.c:652-672 | the children of one node are permuted in place into order of center distance; no other node changes |
| CircTreeSearch.PruningSettles | liblwgeom/lwgeodetic_tree.c:694-699 | a pair pruned by the distance bound holds nothing as near as the least distance |
| CircTreeSearch.DistanceTreeInternal | liblwgeom/lwgeodetic_tree.c:677-863 | on all trees a visit keeps what was found or improves it with points found below; where discs cover what is below them it leaves the pair settled: below the threshold, at most its least distance, or out of reach of the bound |
| CircTreeSearch.TestContainment | liblwgeom/lwgeodetic_tree.c:707-738 | either polygon test that succeeds sets the distance to zero at a contained vertex; when none does no test was certain to |
| CircTreeSearch.DistanceTree | liblwgeom/lwgeodetic_tree.c:607-639 | on all trees the points measured are found below the roots, or are the uninitialised ones when nothing is found; where discs cover what is below them and the threshold is in range they are found, and their distance is below 0.95 of the threshold or at most the least distance; where polygons are regions they are points of the shapes, and none are nearer unless these are below that threshold |
| CircPacking.GrowCovers | liblwgeom/lwgeodetic_tree.c:284-338 | merging covers the disc so far, and covers the next one exactly when it is not a larger disc at about the same center |
| CircPacking.GrowIsSmallest | liblwgeom/lwgeodetic_tree.c:284-338 | no disc that covers both is smaller, but for the tolerance of equal centers |
| CircPacking.PaddingCovers | liblwgeom/lwgeodetic_tree.c:332-337 | the enlarged radius makes up for a center that is off by up to a tenth of it |
| CircPacking.LargerDiscSticksOut | liblwgeom/lwgeodetic_tree.c:286-291 | a disc of radius two about the center of a disc of radius one is swallowed and not covered |
| CircPacking.ParentCovers | liblwgeom/lwgeodetic_tree.c:230-348 | a parent covers all its children when no step of the merge swallows a larger disc or fails to project |
| CircPacking.PackCovers | liblwgeom/lwgeodetic_tree.c:409-454 | when that holds of every merge of every round, all nodes of the packed tree cover their children |
| CircArena.LaidIsCovering | liblwgeom/lwgeodetic_tree.c:676-863 | a tree whose nodes cover their children, laid out for the search, meets what the search's result depends on |
| CircArena.PackedIsCovering | liblwgeom/lwgeodetic_tree.c:897-1001 | so does a tree packed with clean merges and given the type of its geometry, unless that makes a leaf a collection |
| CircPacking.ParentType | liblwgeom/lwgeodetic_tree.c:258-282 | two or more typed nodes merge into a collection type; untyped nodes stay untyped |
| CircPacking.UntypedAreSkipped | liblwgeom/lwgeodetic_tree.c:258-264 | untyped nodes in front of a typed one do not count |
| CircPacking.ParentHoldsTypes | liblwgeom/lwgeodetic_tree.c:258-282 | the type of a parent of single geometries allows them all, and is their homogeneous collection when they are of one type |
| CircPacking.BuiltIsTyped | liblwgeom/lwgeodetic_tree.c:926-1001 | the tree of a geometry holds its own parts, and that of a collection its geometries, but for a collection with one member left |
| CircArena.LaidIsTyped | liblwgeom/lwgeodetic_tree.c:926-1001 | so does the tree laid out for the search |
| CircPacking.InternalNew | liblwgeom/lwgeodetic_tree.c:230-348 | the loop over the children computes the merged disc and type |
| CircPacking.PackingConserves | liblwgeom/lwgeodetic_tree.c:409-454 | packing makes one tree whose leaves are those of the given nodes in order, and every new node has two to eight children |
| CircPacking.LevelCount | liblwgeom/lwgeodetic_tree.c:421-448 | a round leaves an eighth of the nodes, rounded up |
| CircPacking.MergeLevel | liblwgeom/lwgeodetic_tree.c:421-448 | one round overwrites the front of the array with the parents of groups of eight, a merged rest, or a promoted single node |
| CircPacking.NodesMerge | liblwgeom/lwgeodetic_tree.c:409-454 | the rounds terminate and return the packed tree of the nodes given |
| BezierCurve.LeftTraces | liblwgeom/gbox.c:885-914 | the first half traces the span over the first half of its parameter range |
| BezierCurve.RightTraces | liblwgeom/gbox.c:885-914 | the second half traces the span over the second half of its parameter range |
| BezierCurve.EvalMixes | liblwgeom/gbox.c:722-733 | de Casteljau's rounds meet the recursive definition of a Bezier curve |
| BezierCurve.EvalIsHeld | liblwgeom/gbox.c:808-825 | a box that holds the projected control points, of positive weight, holds the projected span |
| BezierCurve.HalvesAreHeld | liblwgeom/gbox.c:885-914 | a box that holds the control points holds those of both halves |
| BezierCurve.HullHolds | liblwgeom/gbox.c:813-825 | the hull box holds every projected control point |
| BezierCurve.ConeIsProjection | liblwgeom/gbox.c:704-714 | holding a homogeneous point is holding its projection |
| BezierSpan.HalvesNest | liblwgeom/gbox.c:885-914 | the hulls of both halves lie inside the hull of the span |
| BezierSpan.HalvesHoldCurve | liblwgeom/gbox.c:928-983 | a box that holds both halves holds the span |
| BezierSpan.SpanIsAdded | liblwgeom/gbox.c:928-983 | whichever rule stops each branch, the box grows to hold the span and stays inside the old box joined with the hull |
| BezierSpan.SpanFromEmpty | liblwgeom/gbox.c:801-806 | from the inverted box the result holds the curve and lies inside the box of the control hull |
| BezierSpan.RefinementChangesNothing | liblwgeom/gbox.c:843-864 | once inner and outer box round to the same floats, so does every box between them |
| BezierSpan.StoredBoxIsExact | liblwgeom/gbox.c:916-983 | where every branch converges, any tighter box that holds the curve rounds to the same floats as the result |
| BezierRefinement.HalvesStep | liblwgeom/gbox.c:891-914 | halving a span halves the largest step between its control points |
| BezierRefinement.BoxIsClose | liblwgeom/gbox.c:916-983 | whichever stop rules fire, the box exceeds any box that holds the curve by no more than the control steps over two to the 53rd account for, given reach and least weight, or rounds to the same floats |
| BezierBox.GBox.Merge | liblwgeom/gbox.c:265-289 | joins a box of equal dimensions, or fails and changes nothing |
| BezierBox.HullGBox | liblwgeom/gbox.c:813-825 | succeeds exactly without a zero weight, with the box of all projected points |
| BezierBox.Split | liblwgeom/gbox.c:892-914 | the nested loops over one temporary row leave the control points of both halves |
| BezierBox.AddBezierSpan | liblwgeom/gbox.c:928-983 | the recursion terminates and leaves the box that `AddSpan` gives |
| BezierBox.SpanGBox | liblwgeom/gbox.c:928-983 | for positive weights it succeeds with a box that holds the projected curve inside the box of its hull |
| Geohash.CellHasArea | liblwgeom/lwalgorithm.c:558-617 | every cell is a proper part of the world |
| Geohash.CellsNest | liblwgeom/lwalgorithm.c:558-617 | more bits give a cell inside |
| Geohash.OwnerIsUnique | liblwgeom/lwalgorithm.c:558-617 | a point, in range or not, has given bits exactly when their cell owns it: lower edges in, upper edges out, world edges open outwards |
| Geohash.PointInDecodedCell | liblwgeom/lwalgorithm.c:682-725 | every point of the world lies in the cell its hash decodes to |
| Geohash.OwnedPointsReencode | liblwgeom/lwalgorithm.c:682-725 | the points that encode to a hash, upper or lower case, are exactly those its decoded cell owns |
| Geohash.HashPrefix | liblwgeom/lwalgorithm.c:558-617 | a shorter hash of a point is a prefix of a longer one |
| Geohash.HashSpellsBits | liblwgeom/lwalgorithm.c:558-617 | the characters of a hash decode to the bits of its point |
| Geohash.Alphabet | liblwgeom/lwalgorithm.c:549 | the characters are the digits and the lower-case letters without a, i, l and o, in ascending order |
| Geohash.CapitalsAreRead | liblwgeom/lwalgorithm.c:697-708 | capitals are decoded as the letters they are |
| Geohash.KnownHash | liblwgeom/lwalgorithm.c:558-617 | the cell of "ez" spans longitudes -11.25 to 0 and latitudes 39.375 to 45, and a point in it has that hash |
| Geohash.GeohashPoint | liblwgeom/lwalgorithm.c:558-617 | the loop over bits and characters writes the hash of the point; nothing for a negative precision |
| Geohash.DecodeGeohashBbox | liblwgeom/lwalgorithm.c:682-725 | bounds are narrowed to the cell of the characters asked for, or the first invalid character is reported |
| Geohash.NextBitHoldsBox | liblwgeom/lwalgorithm.c:766-813 | when one half of a cell holds the box the next bit of its center chooses that half, and otherwise no half holds it |
| Geohash.ShrinkWorld | liblwgeom/lwalgorithm.c:727-826 | the loop terminates with the largest number of bits of the center whose cell holds the box, and with that cell |
| Geohash.CenterIsBest | liblwgeom/lwalgorithm.c:727-826 | if any cell of some number of bits holds the box, the cell of its center does |
| Geohash.GeohashPrecision | liblwgeom/lwalgorithm.c:727-826 | the precision is at most 20 characters, 20 for a point; its cell holds the box, and no hash of more characters, up to 20, has a cell that does |
| Geohash.LwgeomGeohash | liblwgeom/lwalgorithm.c:835-874 | fails exactly without a box or outside the world; with automatic precision the decoded cell contains the whole box, and no longer hash has such a cell |
| Lookup3.MixReversible | liblwgeom/lookup3.c:86-137 | mixing can be undone and reaches every state |
| Lookup3.FinalReversible | liblwgeom/lookup3.c:164-173 | so can the final mixing |
| Lookup3.TailMasked | liblwgeom/lookup3.c:507-535 | a masked word is the padded tail of the key, whatever bytes follow it |
| Lookup3.WordTail | liblwgeom/lookup3.c:520-535 | all twelve cases of masked words add the last block of the key |
| Lookup3.HalfTail | liblwgeom/lookup3.c:574-604 | all twelve fall-through cases of half words and bytes add the last block of the key |
| Lookup3.HashWords | liblwgeom/lookup3.c:493-535 | reading words gives the hash of the key bytes |
| Lookup3.HashHalves | liblwgeom/lookup3.c:559-604 | reading half words gives the hash of the key bytes |
| Lookup3.HashBytes | liblwgeom/lookup3.c:606-650 | reading bytes gives the hash of the key bytes |
| Lookup3.HashLittle2 | liblwgeom/lookup3.c:479-651 | whatever the alignment and byte order, the two hash words are those of the key bytes, length and seeds; an empty key is not mixed |
| Lookup3Vectors.KnownHash | liblwgeom/lookup3.c:479-651 | "Four score and seven years ago" hashes to 17770551 and ce7226e6 with seeds of zero |
| Lookup3Vectors.EmptyKey | liblwgeom/lookup3.c:487-494 | the empty key hashes to deadbeef with the first seed, and with both added |
| MultiPoints.OutsideStrip | liblwgeom/lwgeom.c:2015-2017 | points beyond the strip are further apart than the tolerance |
| MultiPoints.NearIsWithin | liblwgeom/lwgeom.c:2019-2022 | two points are near exactly when their distance is within the tolerance |
| MultiPoints.SweepPasses | liblwgeom/lwgeom.c:1998-2046 | a finished sweep leaves sorted points pairwise further apart than the tolerance, each point taken out within it of one that is left |
| MultiPoints.FarInAnyOrder | liblwgeom/lwgeom.c:1997 | sorting again keeps points pairwise far |
| MultiPoints.NothingToRemove | liblwgeom/lwgeom.c:1994-2047 | a sweep over points that are pairwise far removes nothing |
| MultiPoints.SecondPass | liblwgeom/lwgeom.c:1994-2047 | the promises of the first pass hold of the second one's result, sorted by x |
| MultiPoints.MultiPoint.SortSlots | liblwgeom/lwgeom.c:1910-1942 | slots are permuted into the order of one coordinate, empty points last |
| MultiPoints.MultiPoint.Sweep | liblwgeom/lwgeom.c:1998-2027 | slots are emptied only near an earlier point that stays, until no such pair is left; the flag tells whether any was |
| MultiPoints.MultiPoint.NullEmpties | liblwgeom/lwgeom.c:2029-2038 | exactly the slots of empty points are emptied |
| MultiPoints.MultiPoint.Compactify | liblwgeom/lwgeom.c:2040-2046 | the points left move to the front in order |
| MultiPoints.MultiPoint.Pass | liblwgeom/lwgeom.c:1994-2047 | one pass keeps its promises, and removes nothing from points that are pairwise far |
| MultiPoints.MultiPoint.RemoveRepeatedPoints | liblwgeom/lwgeom.c:1990-2050 | what remains is a part of the input sorted by x, pairwise further apart than a non-negative tolerance, within it of every point removed; the flag is set exactly when points were removed |

## Left out

- EffectiveAreasStore.SetEffectiveArea: lines have at least three points and `avoid_collaps` is at most 4, as every caller in the repository guarantees (it passes 0, 2 or 4); with 5 or more an end could tie with FLT_MAX and be popped.
- CircTreeSearch.DistanceTree: that the distance is the least one is stated for trees whose discs cover what is below them, whose leaves carry no collection type and whose polygons contain only points of their disc; that no points of the shapes are nearer, for trees of geometries whose polygons are regions of the sphere. `CircPacking.GrowCovers`, `CircTree.CollectionLeafFirst`, `CircTree.CollectionLeafSecond` and `CircShapes.RetypedLineIsNeverInside` say when the code fails to provide this; edge routines, polygon tests and the spheroid are parameters.
- CircArena.PackedIsCovering: that a leaf's disc holds its edge and a polygon's disc what it contains is assumed; it is spherical geometry.
- CircPacking.ParentCovers: how far the straight-line center is off is not known; `CircPacking.PaddingCovers` says how far it may be. Spherical projection enters through its distances alone.
- Dbscan.UnionDbscanGeneral: nothing is promised of the flags and classes when a query or a distance fails.
- Sorting.Sort: ties may be left in any order by the library sort; this one leaves them in some order that no contract names.
- Geohash.ShrinkWorld: over the reals the bounds always move, so the stop for bounds that no longer move in double precision is never taken and is not modelled.
- IntervalTrees.IntervalTree.PointInRing: coordinates are exact; the rounding of the side test is not modelled, and null point arrays are rings that are too short.
- GserializedCmp.CmpTransitive: the emptiness test and the sortable hash enter as one function of payload and SRID; the box is not part of the order beyond that function.
- Lookup3.HashLittle2: exclusive or, rotation, shifts and masks are written as arithmetic on 32-bit numbers; memory is taken to end on a word boundary.
- Floating-point rounding, NaN and infinities, except as bytes in the serializer, as invalid edges in the interval tree, and through the rounding function of the Bezier box.
- 32-bit overflow of counts and cursors outside the validator.
- Triangle areas, the R-tree query and geometry distances of the clustering, spherical trigonometry: parameters with the properties the proofs name.
- The B-spline to Bezier decomposition of gbox.c; one Bezier span is the starting point.
- `geohash_point_as_int`, which only orders nodes before packing.
- GSERIALIZED version 1, flags, boxes and `set_gbox`/`drop_gbox`; header bytes enter only through the comparison.
- The emptiness walk of gserialized2.c, which does not skip ring-table padding.
- The other geometry types of `lwgeom_remove_repeated_points_in_place`.
- GEOS wrappers, collecting clusters into geometries, minimal bounding circles: they depend on code that is not visible, or add only plumbing.
- Memory allocation and release, interrupts, logging.
