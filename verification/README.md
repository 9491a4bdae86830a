# Verified models of liblwgeom

Dafny models of the algorithmic core of `liblwgeom`, the geometry library of PostGIS, with proofs of what they
promise. Check everything with `dafny verify dfyconfig.toml`. The claims below rest on the verifier alone: nothing was
executed, and the C code itself was not analysed by a tool.

| files | what they model |
|---|---|
| `MinHeap`, `Visvalingam`, `EffectiveArea` | simplification by effective area: an indexed heap whose members are also a doubly linked chain, and its early exit |
| `CircNode`, `CircBuild`, `CircSearch` | the spherical circle tree: in-place bulk loading, the stab-line count, and the branch-and-bound distance |
| `Bytes`, `Geometry`, `GSerialized2`, `GHeader`, `GAlignment`, `GBuffer` | version 2 of the serialized form: sizes, bytes, alignment, the writers and readers, and the round trip |
| `Floats`, `Gbox`, `GBoxAccess` | bounding boxes, outward rounding, and the three ways of getting the box of a serialized geometry |
| `GCompare`, `GOrder`, `Lookup3`, `Lookup3Answers` | comparing and hashing serialized geometries, the hash of Bob Jenkins' lookup3, and known answers of it |
| `GeohashCell`, `Geohash`, `GeohashPrecision` | geohash encoding, decoding, and the precision that a box shares |
| `Powers`, `Trim`, `HalfUnit` | clearing the bits of a double that a number of decimal digits does not need |
| `Dedup`, `Boundary` | removing repeated points of a multipoint, and the mod-2 boundary of lines |
| `Sorting`, `Wrappers`, `LwTypes` | the contract of `qsort`, optional values and results, type codes |

## Reading guide

* Code that updates arrays and fields is modelled by methods and classes on arrays. Each is proved equal to a
  specification function, and the theorems are about that function.
* Doubles are `real` numbers, except in `Trim`, where they are 64-bit patterns, and in the serialized form, where an
  ordinate is an opaque unit of eight bytes with a meaning given by the environment `Env`.
* Triangle areas, the distance and projection on the sphere, the distance and crossing tests of two edges, the boxes of
  arcs, and the sortable hash are parameters. The predicates `Bounded`, `IsMetric`, `IsGeodesic`, `NearConsistent`,
  `IsStab`, `StabConsistent`, `IsEnv` and `ArcsFit` say what is taken for granted about them, and `SphereExists`,
  `ParametersExist`, `GridExists` and `EnvExists` that it can be met.
* `qsort` is a parameter too: any function that returns a sorted permutation, with ties in any order.
* `lwerror` ends the operation with an error result.

Where the code departs from its evident intent, the model follows the code, a lemma shows an input or a family of
inputs, and the exact condition is proved:

* Concentric circles: a larger circle that comes second is not covered (`EscapeExample`; exactly: `MergeCovers`,
  and `MergeNested` for whole trees).
* A leaf that carries a collection type is opened, though it has no children, instead of the other node
  (`LeafInsideTree`, `CollectionLeaf`; exactly: `TreeDistance`, by whether a closest pair is reached). A threshold
  above `FLT_MAX` stops the search at once.
* The line writer compares the Z flags only (`LineSizeExample`; exactly: `LineSizeExact`).
* A circular string of one or two points is serialized with a box of zeros (`ShortArcCachesZeros`; exactly:
  `GetBoxAgrees`).
* A negative SRID is clamped before it is packed, so the sign extension of the reader never sees one (`SridRoundTrip`).
* The comparator is not antisymmetric for SRID bytes that differ but read as the same number (`ClashExample`; exactly:
  `Antisymmetric`).
* The comparator is not transitive across SRIDs and dimensions (`NotTransitive`, on three small geometries; exactly:
  `TransitiveExactly` and `SerializedTransitive`).
* The precision loop compares strictly and may stop early (`StopsShortExample`; exactly: `StopsShort`, `NoLonger`).
* Trimming exceeds half a unit of the last digit for some numbers of digits before the point (`WorstLoss`,
  `HalfComesAndGoes`, `SubnormalExample`; exactly: `HalfExactly`, `FiniteExactly`), and loses NaN payloads below -292 digits (`NonFiniteKept`).

Where code and comments disagree, the code is followed: the comment on `gserialized_cmp` says that a missing box can
make equal objects differ, yet boxes are not compared (`EqualIsSame`); the comments in `trim_preserve_decimal_digits`
give 1023 for the exponent of infinities, which is 1024, and an identity that fails for zero digits.

## Model

| member | source | states |
|---|---|---|
| `MinHeap.SwapPermutes` | postgis-src/liblwgeom/effectivearea.c:148-158 | exchanging two slots and their back-pointers keeps every member's `treeindex` equal to its slot, and changes no membership, area or link |
| `MinHeap.DownRestores` | postgis-src/liblwgeom/effectivearea.c:123-162 | sifting down repairs a heap whose only fault is below the given slot, and only permutes slots |
| `MinHeap.UpRestores` | postgis-src/liblwgeom/effectivearea.c:169-192 | sifting up repairs a heap whose only fault is above the given slot, and only permutes slots |
| `MinHeap.RootIsMin` | postgis-src/liblwgeom/effectivearea.c:197-203 | the root of an ordered heap is a global minimum |
| `MinHeap.PopTakesMin` | postgis-src/liblwgeom/effectivearea.c:199-211 | a pop removes exactly one member, of globally smallest area; order, back-pointers, areas and links stay |
| `MinHeap.UpdateRestores` | postgis-src/liblwgeom/effectivearea.c:218-228 | after one slot changed its area, choosing the direction by comparing with the parent repairs the heap |
| `MinHeap.ReweighRestores` | postgis-src/liblwgeom/effectivearea.c:309-310 | giving a member a new area and updating its slot keeps heap and membership and changes no other area or link |
| `Visvalingam.UnlinkChain` | postgis-src/liblwgeom/effectivearea.c:330-332 | the survivors stay one increasing doubly linked chain from the first to the last vertex |
| `Visvalingam.EliminateKeeps` | postgis-src/liblwgeom/effectivearea.c:290-332 | re-weighing both neighbours and unlinking keeps heap order, back-pointers and the chain, and gives the neighbours their new areas |
| `Visvalingam.StepLive` | postgis-src/liblwgeom/effectivearea.c:276-338 | one iteration keeps heap, links and recorded areas in agreement on who survives |
| `Visvalingam.MinimumIsSmallest` | postgis-src/liblwgeom/effectivearea.c:276-281 | the popped vertex is an inner survivor that rescanning all survivors would pick, with the area it would compute |
| `Visvalingam.StepExact` | postgis-src/liblwgeom/effectivearea.c:296-328 | every stored area is max(triangle with the current live neighbours, last popped level) again after the iteration |
| `Visvalingam.StepIsNaive` | postgis-src/liblwgeom/effectivearea.c:276-338 | while areas are recorded, one iteration is exactly one elimination by rescanning |
| `Visvalingam.StepInv` | postgis-src/liblwgeom/effectivearea.c:280-288 | the recorded areas never decrease, so the "wrong order" error is unreachable, and the heap is not empty when popped |
| `Visvalingam.RunTail` | postgis-src/liblwgeom/effectivearea.c:280-283 | once the last `avoid_collaps` iterations are reached, the rest of the run changes no recorded area |
| `Visvalingam.RunIsNaive` | postgis-src/liblwgeom/effectivearea.c:274-339 | the heap-driven run records the areas of a run of the textbook algorithm, with the exact number of eliminations when run to the end |
| `Visvalingam.RunAbove` | postgis-src/liblwgeom/effectivearea.c:274-339 | what follows a state records areas no smaller than its last one, and only for members |
| `Visvalingam.EarlyExitSafe` | postgis-src/liblwgeom/effectivearea.c:335-336 | stopping at the first area that reaches the threshold leaves every vertex on the same side of the threshold as the full run |
| `Visvalingam.StartKeysOrder` | postgis-src/liblwgeom/effectivearea.c:105-116 | sorting by area, ties by position, gives a permutation that is a heap |
| `Visvalingam.StartInv` | postgis-src/liblwgeom/effectivearea.c:349-398 | the state before the first iteration satisfies the invariant |
| `Visvalingam.PairStep` | postgis-src/liblwgeom/effectivearea.c:274-339 | with two vertices the loop pops once, records the largest area and stops |
| `Visvalingam.AreasAreNaive` | postgis-src/liblwgeom/effectivearea.c:234-342 | from the initial sort to the last iteration the effective areas are those of the textbook algorithm |
| `Visvalingam.SameVertices` | postgis-src/liblwgeom/effectivearea.c:420-444 | with and without the early exit the same vertex indices are kept |
| `Visvalingam.KeptIndices` | postgis-src/liblwgeom/effectivearea.c:420-444 | exactly the vertices that reach the threshold, in their original order |
| `Visvalingam.EnoughKept` | postgis-src/liblwgeom/effectivearea.c:402-449 | first and last vertex are kept, and at least `avoid_collaps` vertices of a line that long |
| `EffectiveArea.EffectiveAreas.Swap` | postgis-src/liblwgeom/effectivearea.c:150-157 | the two array writes and the two back-pointer writes are `MinHeap.Swap` |
| `EffectiveArea.EffectiveAreas.Down` | postgis-src/liblwgeom/effectivearea.c:123-162 | the recursive method on the arrays is `MinHeap.Down` |
| `EffectiveArea.EffectiveAreas.Up` | postgis-src/liblwgeom/effectivearea.c:169-192 | the loop on the arrays is `MinHeap.Up` |
| `EffectiveArea.EffectiveAreas.Pop` | postgis-src/liblwgeom/effectivearea.c:199-211 | the array method is `MinHeap.Pop` |
| `EffectiveArea.EffectiveAreas.Update` | postgis-src/liblwgeom/effectivearea.c:218-228 | the array method is `MinHeap.Update` |
| `EffectiveArea.EffectiveAreas.EliminateAt` | postgis-src/liblwgeom/effectivearea.c:292-332 | the in-place updates, with the links read beforehand, are one elimination of the specification |
| `EffectiveArea.EffectiveAreas.Eliminate` | postgis-src/liblwgeom/effectivearea.c:276-338 | one iteration on the arrays is `Visvalingam.Step` |
| `EffectiveArea.EffectiveAreas.FillHeap` | postgis-src/liblwgeom/effectivearea.c:253-269 | the filled and sorted heap with its back-pointers is the start state |
| `EffectiveArea.EffectiveAreas.TuneAreas` | postgis-src/liblwgeom/effectivearea.c:234-342 | the order check never fails, the heap never runs empty, and the result array is that of the specification run |
| `EffectiveArea.EffectiveAreas.CalcAreas` | postgis-src/liblwgeom/effectivearea.c:349-398 | first areas and links, then the elimination loop: the result array is that of the specification run |
| `EffectiveArea.SetEffectiveArea` | postgis-src/liblwgeom/effectivearea.c:402-449 | the output holds exactly the kept vertices in order, with their areas when asked for |
| `EffectiveArea.Select` | postgis-src/liblwgeom/effectivearea.c:420-444 | the output loop keeps exactly the vertices that reach the threshold |
| `EffectiveArea.SimplifyPolygon` | postgis-src/liblwgeom/effectivearea.c:477-513 | collapsed rings are dropped, and the polygon with them when none is left |
| `EffectiveArea.OuterRingStays` | postgis-src/liblwgeom/effectivearea.c:477-503 | an outer ring of four or more vertices stays first, with at least four vertices |
| `EffectiveArea.RingStaysExactly` | postgis-src/liblwgeom/effectivearea.c:484-503 | each ring comes out in its turn exactly when four or more of its vertices are left, with protection for the first ring only |
| `EffectiveArea.RingSameVertices` | postgis-src/liblwgeom/effectivearea.c:477-503 | a ring keeps the same vertices with and without the early exit |
| `Sorting.SorterExists` | postgis-src/liblwgeom/effectivearea.c:261-262 | the contract taken for `qsort` can be met: insertion sort meets it |
| `CircNode.LeafInside` | postgis-src/liblwgeom/lwgeodetic_tree.h:36-48 | in a nested tree every leaf circle lies in every circle above it |
| `CircNode.SphereExists` | postgis-src/liblwgeom/lwgeodetic_tree.c:167-190 | what is taken for granted about distance and projection can be met, by a metric that is not constant |
| `CircBuild.MergeCovers` | postgis-src/liblwgeom/lwgeodetic_tree.c:287-333 | the merged circle always covers the first circle, and the second exactly when the concentric branch does not meet a larger one |
| `CircBuild.MergeIsLeast` | postgis-src/liblwgeom/lwgeodetic_tree.c:287-333 | no circle that covers both is smaller than the merged one, but for twice the distance that the concentric branch adds |
| `CircBuild.FoldTypeIs` | postgis-src/liblwgeom/lwgeodetic_tree.c:259-282 | children of one simple type join to the collection of that type, children of several to a general collection |
| `CircBuild.FoldUntyped` | postgis-src/liblwgeom/lwgeodetic_tree.c:259-282 | children without a type join to a node without one |
| `CircBuild.MergeTyped` | postgis-src/liblwgeom/lwgeodetic_tree.c:409-455 | all internal nodes built from typed nodes have collection types |
| `CircBuild.InternalNew` | postgis-src/liblwgeom/lwgeodetic_tree.c:231-349 | the folding loop over the children computes the joined node: circle, type and children |
| `CircBuild.JoinNested` | postgis-src/liblwgeom/lwgeodetic_tree.c:231-349 | a node made from nested children is nested exactly when every circle that escapes in its merge is covered by the final circle |
| `CircBuild.EscapeExample` | postgis-src/liblwgeom/lwgeodetic_tree.c:287-292 | two concentric circles, the smaller first: the parent does not hold the larger; the other order is fine |
| `CircBuild.QuietNested` | postgis-src/liblwgeom/lwgeodetic_tree.c:231-349 | a build in which no circle escapes gives a tree in which every circle holds those of its children |
| `CircBuild.EscapeRecovered` | postgis-src/liblwgeom/lwgeodetic_tree.c:287-309 | a circle that escapes can be covered again by a later merge |
| `CircBuild.GroupChildren` | postgis-src/liblwgeom/lwgeodetic_tree.c:424-434 | the inner loop groups eight by eight in place and leaves the remainder |
| `CircBuild.MergePass` | postgis-src/liblwgeom/lwgeodetic_tree.c:422-450 | one pass turns the children into the parents, in the same array |
| `CircBuild.AddParent` | postgis-src/liblwgeom/lwgeodetic_tree.c:432-433 | a parent overwrites a slot whose node is already grouped, and no later slot changes |
| `CircBuild.NodesMerge` | postgis-src/liblwgeom/lwgeodetic_tree.c:410-455 | in-place merging terminates and returns the tree of the specification |
| `CircBuild.Round` | postgis-src/liblwgeom/lwgeodetic_tree.c:422-450 | one pass leaves an eighth of the nodes, rounded up |
| `CircBuild.MergeLeaves` | postgis-src/liblwgeom/lwgeodetic_tree.c:410-455 | every leaf is kept exactly once and in order |
| `CircBuild.MergeShape` | postgis-src/liblwgeom/lwgeodetic_tree.c:410-455 | internal nodes have two to eight children, and the depth is at most the number of passes |
| `CircBuild.LevelsIsLog8` | postgis-src/liblwgeom/lwgeodetic_tree.c:410-455 | the number of passes is the logarithm to base 8, rounded up |
| `CircBuild.MergeNested` | postgis-src/liblwgeom/lwgeodetic_tree.c:231-349 | every circle of the built tree holds the circles of its children exactly when, in every group of every pass, each circle that escapes is covered by the final one |
| `CircSearch.PrunedUncrossed` | postgis-src/liblwgeom/lwgeodetic_tree.c:511-519 | a pruned node has no leaf that the stab line crosses |
| `CircSearch.ContainsPointIsParity` | postgis-src/liblwgeom/lwgeodetic_tree.c:495-587 | the pruned count is the parity of the crossings of all leaves |
| `CircSearch.ParametersExist` | postgis-src/liblwgeom/lwgeodetic_tree.c:609-633 | for any two trees, a metric, leaf distances and a stab line exist that meet all assumptions of both searches |
| `CircSearch.BoundsHold` | postgis-src/liblwgeom/lwgeodetic_tree.c:589-606 | the two circle bounds enclose the distance of every pair of leaves below two nodes |
| `CircSearch.MinAttained` | postgis-src/liblwgeom/lwgeodetic_tree.c:589-600 | the lower bound cannot be improved: two points in the circles are just so far apart |
| `CircSearch.MaxAttained` | postgis-src/liblwgeom/lwgeodetic_tree.c:602-606 | nor can the upper bound, where the circles lie on a segment with room for them |
| `CircSearch.Search.constructor` | postgis-src/liblwgeom/lwgeodetic_tree.c:609-620 | both accumulators start at `FLT_MAX` |
| `CircSearch.Search.Visit` | postgis-src/liblwgeom/lwgeodetic_tree.c:678-864 | a visit keeps the found distance attained by a reached pair, and settles every reached pair of leaves below the two nodes; a distance below the threshold stops the search |
| `CircSearch.Search.VisitLeaves` | postgis-src/liblwgeom/lwgeodetic_tree.c:741-813 | two leaves: the distance of the pair is taken over when it is smaller |
| `CircSearch.Search.VisitFirst` | postgis-src/liblwgeom/lwgeodetic_tree.c:821-847 | opening the first node in any child order settles all pairs reached that way; a leaf has nothing to open |
| `CircSearch.Search.VisitSecond` | postgis-src/liblwgeom/lwgeodetic_tree.c:830-856 | opening the second node in any child order settles all pairs reached that way |
| `CircSearch.Search.SortNodes` | postgis-src/liblwgeom/lwgeodetic_tree.c:643-673 | the children come out nearest center first, none lost or added |
| `CircSearch.TreeDistance` | postgis-src/liblwgeom/lwgeodetic_tree.c:609-633 | for all nested trees without polygons: the distance and the two closest points, the first tree's first, are those of a pair of leaves that the opening order reaches; if a closest pair is reached, the result is below the threshold exactly when some pair is, and otherwise the true minimum; a result not below the threshold is the minimum exactly then; a threshold above `FLT_MAX`, or a root that is a collection-typed leaf opened in place of the other, leaves `FLT_MAX` |
| `CircSearch.PlainLeavesDrivable` | postgis-src/liblwgeom/lwgeodetic_tree.c:815-857 | trees whose leaves carry no collection type never meet a collection-typed leaf against an internal node |
| `CircSearch.DrivableReaches` | postgis-src/liblwgeom/lwgeodetic_tree.c:815-857 | then every pair of leaves is reached |
| `CircSearch.DrivableClosest` | postgis-src/liblwgeom/lwgeodetic_tree.c:678-864 | and so a closest pair is |
| `CircSearch.BuiltSearch` | postgis-src/liblwgeom/lwgeodetic_tree.c:409-455 | trees built from plain leaves, with nothing lost to an escaping circle, are nested and a closest pair is reached, so the search finds the minimum |
| `CircSearch.ReachedIsPair` | postgis-src/liblwgeom/lwgeodetic_tree.c:815-857 | only pairs of leaves of the two trees are reached |
| `CircSearch.LeafInsideTree` | postgis-src/liblwgeom/lwgeodetic_tree.c:976-1002 | a collection-typed leaf below a root, against a line of two edges: its pairs are not reached, and the closest is among them |
| `CircSearch.CollectionLeaf` | postgis-src/liblwgeom/lwgeodetic_tree.c:821-829 | a collection-typed leaf at a root, first, or second against a node of no collection type: a closest pair is reached exactly when the other node is a leaf too |
| `CircSearch.CollectionsDrivable` | postgis-src/liblwgeom/lwgeodetic_tree.c:821-829 | a tree whose internal nodes all have collection types is opened down to its leaves before a second leaf is, whatever types the leaves carry |
| `CircSearch.SettledIsMinimum` | postgis-src/liblwgeom/lwgeodetic_tree.c:678-864 | settled reached pairs give the minimum and the threshold equivalence when a closest pair is reached, and only then the minimum; a closest pair is never pruned |
| `Geometry.TypeCodes` | postgis-src/liblwgeom/liblwgeom.h.in:102-116 | the type codes, which of them are single arrays and collections, and the collection of each type, as numbers |
| `Geometry.CollectionsHold` | postgis-src/liblwgeom/lwcollection.c:513-547 | the collection type of a type can hold it, and the collection types are exactly those that can hold something |
| `Geometry.MembersAre` | postgis-src/liblwgeom/lwcollection.c:513-547 | which types a typed collection can hold, as numbers |
| `Geometry.MembersFit` | postgis-src/liblwgeom/lwcollection.c:513-547 | members have the dimension of their collection, but for the rings of a curve polygon, and are no multi-types; triangles are held by TINs only |
| `GSerialized2.SizeIsLength` | postgis-src/liblwgeom/gserialized2.c:674-826 | declared size equals bytes written, a multiple of eight, for every geometry of uniform dimensions |
| `GSerialized2.PaddedLength` | postgis-src/liblwgeom/gserialized2.c:716-737 | four bytes of padding after an odd number of ring counts keep the ordinates aligned |
| `GSerialized2.PaddingIsZero` | postgis-src/liblwgeom/gserialized2.c:940-945 | the padding is four zero bytes |
| `GSerialized2.Decode` | postgis-src/liblwgeom/gserialized2.c:1490-1528 | a successful read stays inside the buffer and moves on by at least the eight bytes of type and count |
| `GSerialized2.RoundTrip` | postgis-src/liblwgeom/gserialized2.c:1490-1528 | reading what was written, anywhere in a buffer, returns the same tree and stops exactly behind it; parts come back without boxes |
| `GSerialized2.RoundTripSimple` | postgis-src/liblwgeom/gserialized2.c:1244-1307 | points, lines, triangles and circular strings come back |
| `GSerialized2.RoundTripPolygon` | postgis-src/liblwgeom/gserialized2.c:1309-1365 | polygons come back, through the two moving positions over counts and ordinates |
| `GSerialized2.RoundTrips` | postgis-src/liblwgeom/gserialized2.c:1431-1488 | the members of a collection come back, and are of an allowed type |
| `GSerialized2.DecodedIsValid` | postgis-src/liblwgeom/gserialized2.c:1431-1528 | whatever can be read is a valid geometry of uniform dimensions with allowed subtypes |
| `GHeader.SridRoundTrip` | postgis-src/liblwgeom/gserialized2.c:191-222 | what comes back is the clamped SRID: the given one exactly in 0..999999, none for a negative one, and for a larger one that of 999000..999998 with the same remainder by 999 |
| `GHeader.SridRead` | postgis-src/liblwgeom/gserialized2.c:191-206 | whatever the three bytes, the SRID read is the signed 21-bit number in them |
| `GHeader.FlagsRead` | postgis-src/liblwgeom/gserialized2.c:118-176 | the flag accessors read back what was packed; of the other bits only the version is set |
| `GHeader.ExtendedIs` | postgis-src/liblwgeom/gserialized2.c:76-80 | any flag beyond the core four costs eight bytes, a little-endian number whose first bit is the solid flag |
| `GHeader.BoxRead` | postgis-src/liblwgeom/gserialized2.c:1132-1175 | a stored box reads back as the rounded box, for every combination of dimensions and for geodetic boxes |
| `GHeader.SizeAgrees` | postgis-src/liblwgeom/gserialized2.c:809-826 | the reserved size is the number of bytes written (so the assertion in line 1230 holds), and the body starts aligned where the header ends |
| `GHeader.HeaderRead` | postgis-src/liblwgeom/gserialized2.c:1179-1235 | size word, SRID, flags, extended flags and box are where the readers look for them |
| `GHeader.FlagsSurvive` | postgis-src/liblwgeom/gserialized2.c:59-104 | Z, M, geodetic and solid survive, the header size is recomputed from the flags, and the cached box is the stored one |
| `GHeader.WholeRoundTrip` | postgis-src/liblwgeom/gserialized2.c:1530-1582 | a whole serialized geometry comes back: types, counts, ordinates, SRID, flags; the box rounded outwards or recomputed |
| `GHeader.Prepared` | postgis-src/liblwgeom/lwgeom.c:1208-1240 | the box flag agrees with the box after preparation, and a valid geometry stays valid |
| `GAlignment.BodyAligned` | postgis-src/liblwgeom/gserialized2.c:836-1112 | every sub-geometry and every block of ordinates starts at a multiple of eight, for every nesting and ring parity |
| `GAlignment.WrittenAligned` | postgis-src/liblwgeom/gserialized2.c:1179-1235 | and so it is under every combination of extended flags and box dimensions |
| `GBuffer.UniformAccepted` | postgis-src/liblwgeom/gserialized2.c:836-1072 | the writers accept every geometry of uniform dimensions |
| `GBuffer.LineSizeExact` | postgis-src/liblwgeom/gserialized2.c:881-889 | the line writer compares Z only: size and bytes agree exactly when the M flags do or there is no vertex |
| `GBuffer.LineSizeExample` | postgis-src/liblwgeom/gserialized2.c:881-889 | one vertex with M in a line without is accepted and needs eight bytes more than reserved |
| `GBuffer.PatchConcat` | postgis-src/liblwgeom/gserialized2.c:848-866 | writing one piece right behind another is writing both |
| `GBuffer.WriteSimple` | postgis-src/liblwgeom/gserialized2.c:836-908 | type, count and ordinates are written in place at the given position, or nothing is promised after a mismatch of dimensions |
| `GBuffer.WriteCounts` | postgis-src/liblwgeom/gserialized2.c:933-938 | the loop writes the ring counts |
| `GBuffer.WriteOrdinates` | postgis-src/liblwgeom/gserialized2.c:947-960 | the loop writes the rings' ordinates, or stops at the first ring of other dimensions |
| `GBuffer.WritePolygon` | postgis-src/liblwgeom/gserialized2.c:910-962 | counts, padding and ordinates are the polygon's encoding, and nothing else in the buffer changes |
| `GBuffer.WriteCollection` | postgis-src/liblwgeom/gserialized2.c:1041-1072 | the members follow type and count, and nothing else in the buffer changes |
| `GBuffer.WriteAny` | postgis-src/liblwgeom/gserialized2.c:1074-1112 | the recursive writer overwrites exactly the encoding of the geometry, or reports the mismatch |
| `GBuffer.WriteWhole` | postgis-src/liblwgeom/gserialized2.c:1179-1235 | the reserved buffer is filled exactly: header, extended flags, box, body |
| `GBuffer.ReadPolygon` | postgis-src/liblwgeom/gserialized2.c:1309-1365 | the reading loop computes the decoded polygon |
| `GBuffer.ReadRings` | postgis-src/liblwgeom/gserialized2.c:1343-1361 | the loop over rings with its two pointers computes the decoded rings |
| `GBuffer.ReadCollection` | postgis-src/liblwgeom/gserialized2.c:1431-1488 | the loop over members computes the decoded collection, subtype check included |
| `GBuffer.ReadAny` | postgis-src/liblwgeom/gserialized2.c:1490-1528 | the dispatching reader computes the decoded geometry |
| `Floats.DownIsFloor` | postgis-src/liblwgeom/lwgeom_api.c:54-73 | the largest single-precision value not above the argument; it is below the argument exactly from -FLT_MAX on |
| `Floats.UpIsCeiling` | postgis-src/liblwgeom/lwgeom_api.c:75-88 | the smallest single-precision value not below the argument; it is above the argument exactly up to FLT_MAX |
| `Floats.GridExists` | postgis-src/liblwgeom/lwgeom_api.c:54-88 | what is taken for granted about single precision can be met |
| `Floats.RangeEnds` | postgis-src/liblwgeom/lwgeom_api.c:54-88 | the range ends at 24 significant bits, the lowest of which counts 2^104 |
| `Floats.RoundingIdempotent` | postgis-src/liblwgeom/lwgeom_api.c:54-88 | rounding twice changes nothing more |
| `Gbox.ExtentTight` | postgis-src/liblwgeom/gbox.c:537-599 | both ends of an extent are ordinates, and all ordinates lie between |
| `Gbox.OffsetNext` | postgis-src/liblwgeom/gbox.c:537-599 | the ordinates follow one another point by point |
| `Gbox.Fold` | postgis-src/liblwgeom/gbox.c:537-599 | the loop over the vertices computes the extents of all ordinates |
| `Gbox.CalculateBox` | postgis-src/liblwgeom/gbox.c:601-646 | the dispatch on dimensions computes the box; without Z the third ordinate is M; no vertices, no box |
| `Gbox.CollectionBox` | postgis-src/liblwgeom/gbox.c:705-738 | the loop merges the boxes of the members that have one |
| `Gbox.BoxHolds` | postgis-src/liblwgeom/gbox.c:697-772 | the computed box holds every vertex of points, lines, triangles and outer rings, in the right dimensions; without a box there is none |
| `Gbox.BoxIsLeast` | postgis-src/liblwgeom/gbox.c:697-772 | the computed box is the smallest: a box encloses all vertices and arc boxes exactly when it contains the computed one |
| `Gbox.MixedBox` | postgis-src/liblwgeom/gbox.c:257-281 | with members of mixed dimensions the first that has a box decides on the dimensions, and the box is the smallest around those that share them |
| `Gbox.RoundIsLeast` | postgis-src/liblwgeom/gbox.c:774-793 | the rounded box is the smallest of single precision around the box |
| `Gbox.EnvExists` | postgis-src/liblwgeom/gbox.c:648-677 | what is taken for granted about ordinates, floats and arc boxes can be met |
| `Gbox.RoundHolds` | postgis-src/liblwgeom/gbox.c:774-793 | rounding outwards keeps every vertex that is within the single-precision range in the box, whatever the others are |
| `Gbox.AllInRange` | postgis-src/liblwgeom/gbox.c:774-793 | with all vertices in range that is the whole geometry |
| `GBoxAccess.PeekAgrees` | postgis-src/liblwgeom/gserialized2.c:394-563 | a peek succeeds exactly for a point, a two-point line, and a multi-type with one such member, and is then the calculated and rounded box, in all four dimensionalities |
| `GBoxAccess.NeedsBoxExactly` | postgis-src/liblwgeom/lwgeom.c:1208-1240 | no box is cached for exactly the non-empty geometries that a peek is meant for; polygons, longer lines and larger collections get one |
| `GBoxAccess.FastExactly` | postgis-src/liblwgeom/gserialized2.c:644-661 | reading alone, cached or peeked, gives the box of every written geometry but empty ones and lines of one vertex, and it is the box that the full way gives |
| `GBoxAccess.GeodeticBox` | postgis-src/liblwgeom/gserialized2.c:402-405 | a geodetic geometry is never peeked into; where it needs a box, the geodetic one is cached, rounded |
| `GBoxAccess.GetBoxAgrees` | postgis-src/liblwgeom/gserialized2.c:615-638 | the box that is read is the rounded box of the geometry, exactly unless the geometry is not empty, needs a box, and consists of empty parts and circular strings of fewer than three points |
| `GBoxAccess.GetBoxIs` | postgis-src/liblwgeom/gserialized2.c:615-638 | in that case, and only then, it is the zeros cached in place of a box |
| `GBoxAccess.BoxUnlessBoxless` | postgis-src/liblwgeom/gbox.c:648-738 | exactly the geometries of empty parts and such short circular strings have no box |
| `GBoxAccess.GetBoxHolds` | postgis-src/liblwgeom/gserialized2.c:615-638 | it encloses every vertex in range, even where others are beyond, and without arcs it is missing exactly for empty geometries |
| `GBoxAccess.GetBoxIsLeast` | postgis-src/liblwgeom/gserialized2.c:615-638 | no box of single precision around the geometry is smaller |
| `GBoxAccess.PreparedFits` | postgis-src/liblwgeom/gserialized2.c:1179-1210 | a geometry without a box gets one of its own dimensions |
| `GBoxAccess.BoxUnlessEmpty` | postgis-src/liblwgeom/gbox.c:697-738 | without arcs, exactly the empty geometries have no box |
| `GBoxAccess.ShortArcCachesZeros` | postgis-src/liblwgeom/gbox.c:648-677 | a circular string of one or two points has no box, and is serialized with a box of zeros |
| `GCompare.HeaderBytesAgree` | postgis-src/liblwgeom/gserialized.c:278-301 | for version 2 the comparator's header size is the accessor's, and for version 1 it leaves no room for extended flags |
| `GCompare.EqualIsSame` | postgis-src/liblwgeom/gserialized.c:313-339 | 0 exactly for equal SRID bytes, Z, M and body; boxes and other flags do not matter |
| `GCompare.Antisymmetric` | postgis-src/liblwgeom/gserialized.c:313-387 | swapping the arguments negates the result, exactly unless different SRID bytes read as the same number and decide |
| `GCompare.WellFormedSrid` | postgis-src/liblwgeom/gserialized.c:303-311 | SRID bytes with the three highest bits clear, as they are always written, never do that |
| `GCompare.CompareIsRanked` | postgis-src/liblwgeom/gserialized.c:341-387 | on one SRID and dimension the result is lexicographic, emptiness, hash, body bytes, exactly when equal bodies do not come with different keys |
| `GCompare.RankedIsTotalOrder` | postgis-src/liblwgeom/gserialized.c:313-387 | that order is total, antisymmetric and transitive, and equal only for equal key and body |
| `GCompare.MemcmpIsLex` | postgis-src/liblwgeom/gserialized.c:327-371 | comparing the common prefix and then the lengths is lexicographic comparison |
| `GCompare.CompareIsTiered` | postgis-src/liblwgeom/gserialized.c:341-387 | for SRID bytes as they are written the result is by key, then shorter prefix first, then SRID, Z, M and body |
| `GCompare.RestIsOrder` | postgis-src/liblwgeom/gserialized.c:373-387 | the last four of these rules make a strict order |
| `GCompare.TiesInRound` | postgis-src/liblwgeom/gserialized.c:365-387 | three geometries of equal key go round exactly when one body continues another and the other two steps, between unrelated bodies, are decided by SRID, Z, M and body |
| `GCompare.TransitiveExactly` | postgis-src/liblwgeom/gserialized.c:313-387 | the comparator fails to be transitive exactly for equal keys and such a round |
| `GCompare.EqualHash` | postgis-src/liblwgeom/gserialized2.c:302-325 | geometries that compare equal have equal hashes, whether or not a box is cached |
| `GOrder.EmptyPointHash` | postgis-src/liblwgeom/gserialized2.c:302-325 | one hash as a literal: that of the empty point with SRID 1 |
| `GOrder.WrittenParts` | postgis-src/liblwgeom/gserialized.c:313-325 | the comparator sees exactly the encoded body, the SRID bytes and the dimensions of what was serialized |
| `GOrder.BodyDetermines` | postgis-src/liblwgeom/gserialized2.c:1490-1528 | bodies of one dimension are equal exactly when the trees are |
| `GOrder.EqualContents` | postgis-src/liblwgeom/gserialized.c:313-339 | two serialized geometries compare equal exactly when SRID, dimensions and the whole tree of contents agree |
| `GOrder.KeyOfBox` | postgis-src/liblwgeom/gserialized.c:341-363 | the sort key of a geometry that carries a box is the hash of that box as stored, and of the SRID |
| `GOrder.WrittenOrder` | postgis-src/liblwgeom/gserialized.c:313-387 | for all serialized geometries of one SRID and dimension, whatever boxes they carry, the comparator is lexicographic exactly unless equal bodies come with different keys |
| `GOrder.KeyFromBody` | postgis-src/liblwgeom/gserialized.c:341-363 | for geometries serialized without a box of their own, emptiness and hash follow from the body, zeros cached for short arcs included |
| `GOrder.SerializedOrder` | postgis-src/liblwgeom/gserialized.c:313-387 | so on these, of one SRID and dimension, the comparator is the lexicographic total order |
| `GOrder.SerializedTransitive` | postgis-src/liblwgeom/gserialized.c:313-387 | and across SRIDs and dimensions it is transitive, exactly but for the rounds above |
| `GOrder.OriginsRound` | postgis-src/liblwgeom/gserialized.c:365-375 | POINT(0 0) with SRID 5, POINT Z(0 0 0) with SRID 1 and MULTIPOINT(0 0) with SRID 3, as they are serialized, make such a round |
| `GOrder.NotTransitive` | postgis-src/liblwgeom/gserialized.c:313-387 | if their three boxes hash alike, each of these comes before the next |
| `GOrder.ClashExample` | postgis-src/liblwgeom/gserialized.c:373-375 | two serialized empty points whose SRID bytes differ in an unused bit: each comes before the other, whatever the hash |
| `GOrder.HashesAlike` | postgis-src/liblwgeom/gserialized.c:358-363 | there are environments and hashes for which they do |
| `Lookup3.UnmixInverts` | postgis-src/liblwgeom/lookup3.c:129-138 | `mix` is reversible |
| `Lookup3.UnfinalInverts` | postgis-src/liblwgeom/lookup3.c:164-173 | `final` is reversible |
| `Lookup3Answers.RotIs` | postgis-src/liblwgeom/lookup3.c:74-74 | a rotation, by every amount used: the bits that leave at the top come back at the bottom, and no other is lost |
| `Lookup3Answers.SpeechAnswer` | postgis-src/liblwgeom/lookup3.c:479-651 | the published answer for "Four score and seven years ago", through two mixed blocks and a final one |
| `Lookup3Answers.LetterAnswer` | postgis-src/liblwgeom/lookup3.c:479-651 | the answer for the key "a" |
| `Lookup3Answers.EmptyAnswers` | postgis-src/liblwgeom/lookup3.c:479-494 | the published answers for the empty key and three pairs of seeds |
| `Lookup3.HashWords` | postgis-src/liblwgeom/lookup3.c:493-535 | the word-at-a-time path computes the hash of the key, whatever bytes the last load reads past its end |
| `Lookup3.LastWords` | postgis-src/liblwgeom/lookup3.c:518-535 | the masked tail of that path absorbs exactly the bytes of the key |
| `Lookup3.HashHalves` | postgis-src/liblwgeom/lookup3.c:559-604 | the half-word path computes the same hash |
| `Lookup3.LastHalves` | postgis-src/liblwgeom/lookup3.c:574-604 | its falling cases absorb exactly the bytes of the key |
| `Lookup3.HashBytes` | postgis-src/liblwgeom/lookup3.c:606-647 | the byte-at-a-time path computes the same hash |
| `Lookup3.HashAt` | postgis-src/liblwgeom/lookup3.c:479-651 | byte order and alignment of the key do not change the two hash values |
| `Lookup3.HashInjective` | postgis-src/liblwgeom/lookup3.c:129-173 | one key takes different states to different states |
| `Lookup3.OneBlockDiffers` | postgis-src/liblwgeom/lookup3.c:479-651 | equal-length keys that differ, but only inside one block of twelve, end with different (a,b,c) |
| `GeohashCell.CellOfBitsOf` | postgis-src/liblwgeom/lwalgorithm.c:604-663 | the cell of a point's bits contains the point |
| `GeohashCell.CellSize` | postgis-src/liblwgeom/lwalgorithm.c:728-771 | the sides of a cell are 360 and 180 degrees halved as often as the bits say |
| `GeohashCell.BitsOfCell` | postgis-src/liblwgeom/lwalgorithm.c:604-663 | every point inside a cell, its eastern and northern edges excepted, has exactly the cell's bits |
| `GeohashCell.BitsAreDigits` | postgis-src/liblwgeom/lwalgorithm.c:604-663 | the bits of a point interleave the binary digits of two quotients, of its distances from the western and southern edges of the world by the sides of a cell, rounded down |
| `GeohashCell.CellPlace` | postgis-src/liblwgeom/lwalgorithm.c:728-771 | a cell lies as far from those edges as the numbers say that its bits write |
| `GeohashCell.PrefixEncloses` | postgis-src/liblwgeom/lwalgorithm.c:728-771 | fewer bits name an enclosing cell |
| `GeohashCell.BitStep` | postgis-src/liblwgeom/lwalgorithm.c:622-648 | the test and the halving of one bit agree in the encoder's interval and in the cell |
| `Geohash.EncodePoint` | postgis-src/liblwgeom/lwalgorithm.c:604-663 | the bit-by-bit loop computes the geohash string |
| `Geohash.DecodeBox` | postgis-src/liblwgeom/lwalgorithm.c:728-771 | the loop computes the cell of the used characters, and fails exactly when one is not in the alphabet |
| `Geohash.DecodeDigit` | postgis-src/liblwgeom/lwalgorithm.c:756-769 | the five halvings of a character are those of its bits |
| `Geohash.DigitOfLetter` | postgis-src/liblwgeom/lwalgorithm.c:747-754 | every character of the alphabet is found at its own place |
| `Geohash.CaseIgnored` | postgis-src/liblwgeom/lwalgorithm.c:743-754 | capitals are read as the small letters, and nothing else outside the alphabet is read |
| `Geohash.AlphabetIs` | postgis-src/liblwgeom/lwalgorithm.c:597-597 | the alphabet is made of the digits and of all lower-case letters but a, i, l and o |
| `Geohash.AlphabetAscends` | postgis-src/liblwgeom/lwalgorithm.c:597-597 | in ascending order |
| `Geohash.BitsOfChars` | postgis-src/liblwgeom/lwalgorithm.c:650-660 | reading the characters back gives the bits |
| `Geohash.CharsOfBits` | postgis-src/liblwgeom/lwalgorithm.c:743-754 | writing the bits of a valid string gives it back in lower case |
| `Geohash.DecodeEncoded` | postgis-src/liblwgeom/lwalgorithm.c:728-771 | decoding an encoded point gives a cell that contains it, of sides 360/2^ceil(5k/2) and 180/2^floor(5k/2) |
| `Geohash.EncodeDecoded` | postgis-src/liblwgeom/lwalgorithm.c:604-663 | encoding any point of a string's half-open cell gives the string back |
| `Geohash.KnownLetter` | postgis-src/liblwgeom/cunit/cu_algorithm.c:971-973 | the first letter of a geohash of the test suite |
| `Geohash.ShorterEncloses` | postgis-src/liblwgeom/lwalgorithm.c:737-741 | decoding with a smaller precision gives an enclosing cell |
| `GeohashPrecision.RoundsDrop` | postgis-src/liblwgeom/lwalgorithm.c:801-849 | each round of the shrinking loop lowers how often the box's extent fits into the cell, so the loop ends |
| `GeohashPrecision.SharedStep` | postgis-src/liblwgeom/lwalgorithm.c:807-822 | when the box lies strictly on one side of the splitting line, all its points share the next bit |
| `GeohashPrecision.Precision` | postgis-src/liblwgeom/lwalgorithm.c:773-860 | the loop ends; the bounds are a cell that contains the box, all points of the box share its bits, and the next splitting line meets the box; a point gets 20 |
| `GeohashPrecision.StopsShort` | postgis-src/liblwgeom/lwalgorithm.c:807-849 | the box shares further bits than the loop counts exactly when its lower edge lies on the line it stopped at |
| `GeohashPrecision.StopsShortExample` | postgis-src/liblwgeom/lwalgorithm.c:807-826 | a small box with its western edge on the zero meridian stops the loop at once and still shares further bits |
| `GeohashPrecision.NoLonger` | postgis-src/liblwgeom/lwalgorithm.c:855-859 | when its lower edge is off that line, no string longer than the returned precision names the box |
| `GeohashPrecision.SharedNames` | postgis-src/liblwgeom/lwalgorithm.c:604-663 | one string at the returned precision is the geohash of every point of the box, and its cell contains the box |
| `GeohashPrecision.GeohashOf` | postgis-src/liblwgeom/lwalgorithm.c:870-908 | nothing outside the world bounds; with automatic precision one string names the whole box; otherwise the geohash of the center |
| `Trim.TrimKeeps` | postgis-src/liblwgeom/lwgeom.c:2534-2560 | sign and exponent stay, and the fraction is cut at the bit that the code computes |
| `Trim.TrimExactly` | postgis-src/liblwgeom/lwgeom.c:2542-2557 | the fraction is rounded down to a multiple of 2^k, where k = 1074 - exponent - c is held between 0 and 51 and c is 851/256 of the digits, rounded as C does |
| `Trim.TrimTruncates` | postgis-src/liblwgeom/lwgeom.c:2542-2557 | a finite double is rounded towards zero to a multiple of 2^-(c+1), and a normal one never to fewer than two significant bits |
| `Trim.TrimExample` | postgis-src/liblwgeom/lwgeom.c:2534-2560 | one third to two digits keeps six fraction bits |
| `Trim.TrimIdempotent` | postgis-src/liblwgeom/lwgeom.c:2534-2560 | trimming twice changes nothing more |
| `Trim.TrimLoss` | postgis-src/liblwgeom/lwgeom.c:2534-2560 | the magnitude never grows, and shrinks by less than the first bit kept |
| `Trim.TrimClose` | postgis-src/liblwgeom/lwgeom.c:2534-2560 | every finite double moves by less than 10^-digits, for every number of digits, negative ones included |
| `HalfUnit.NoLarger` | postgis-src/liblwgeom/lwgeom.c:2540-2557 | no normal double loses more than (2^51-1)*2^(g-51) at n digits before the point, g being the exponent taken for 10^n |
| `HalfUnit.WorstLoss` | postgis-src/liblwgeom/lwgeom.c:2540-2557 | up to n = 307 a normal double loses exactly that |
| `HalfUnit.HalfExactly` | postgis-src/liblwgeom/lwgeom.c:2534-2560 | all normal doubles move by less than half of 10^-digits exactly for digits >= 0, digits <= -308, or where (2^51-1)*2^(g+1) < 10^n*2^51 |
| `HalfUnit.FiniteExactly` | postgis-src/liblwgeom/lwgeom.c:2534-2560 | all finite doubles do exactly if, besides, 2*(2^(1074-c)-1)*10^digits < 2^1074 where the binary places c for the digits are 1023 to 1073 |
| `HalfUnit.SubnormalExample` | postgis-src/liblwgeom/lwgeom.c:2540-2542 | at 308 digits a subnormal double moves by more than half a unit, though no normal one does |
| `HalfUnit.TrimHalf` | postgis-src/liblwgeom/lwgeom.c:2541-2546 | for normal doubles half a unit holds for every number of digits from -30 on |
| `HalfUnit.HalfComesAndGoes` | postgis-src/liblwgeom/lwgeom.c:2541-2546 | and beyond comes and goes: not at -31, but at -32 and -33, and not at -34 |
| `Trim.NonFiniteKept` | postgis-src/liblwgeom/lwgeom.c:2548-2557 | infinities and NaNs all come back unchanged exactly from -292 digits on |
| `Powers.TenBelow` | postgis-src/liblwgeom/lwgeom.c:2541-2542 | 2^ceil(851d/256) >= 10^d for every d |
| `Powers.TenAbove` | postgis-src/liblwgeom/lwgeom.c:2543-2546 | rounding the other way is safe up to 425 digits before the point |
| `Powers.TenTo308` | postgis-src/liblwgeom/lwgeom.c:2541-2546 | 10^308 is above the largest power of two of a finite double |
| `Dedup.OrderIsPreorder` | postgis-src/liblwgeom/lwgeom.c:1569-1601 | the two comparison functions are total preorders, one by x and one by y, with empty points last |
| `Dedup.GreedySpread` | postgis-src/liblwgeom/lwgeom.c:1649-1708 | the simple form leaves points that are pairwise farther apart than the tolerance |
| `Dedup.GreedyCovers` | postgis-src/liblwgeom/lwgeom.c:1649-1708 | every non-empty point left out is within the tolerance of one kept |
| `Dedup.BreakSafe` | postgis-src/liblwgeom/lwgeom.c:1674-1676 | past the first point farther away along the sorted coordinate nothing is within the tolerance |
| `Dedup.NoBreak` | postgis-src/liblwgeom/lwgeom.c:1678-1684 | before the break, comparing squares is comparing distances |
| `Dedup.ProgressKnock` | postgis-src/liblwgeom/lwgeom.c:1657-1686 | letting one point take out those near it is one step of the simple form |
| `Dedup.MultiPoint.constructor` | postgis-src/liblwgeom/lwgeom.c:1651-1651 | the points, none removed yet |
| `Dedup.MultiPoint.Knock` | postgis-src/liblwgeom/lwgeom.c:1665-1685 | the inner loop removes exactly the later points within the tolerance of the point, in spite of the break |
| `Dedup.MultiPoint.KnockAll` | postgis-src/liblwgeom/lwgeom.c:1657-1686 | the double loop removes exactly what the simple form leaves out |
| `Dedup.MultiPoint.DropEmpty` | postgis-src/liblwgeom/lwgeom.c:1688-1697 | exactly the empty points are removed |
| `Dedup.MultiPoint.Compact` | postgis-src/liblwgeom/lwgeom.c:1699-1704 | the holes are closed, in order |
| `Dedup.MultiPoint.Sweep` | postgis-src/liblwgeom/lwgeom.c:1653-1705 | one round leaves the simple form's result on the sorted points, and reports whether it removed any |
| `Dedup.MultiPoint.RemoveRepeated` | postgis-src/liblwgeom/lwgeom.c:1649-1708 | both rounds leave the net sorted by x, and report a change exactly when points are gone |
| `Dedup.SecondSweep` | postgis-src/liblwgeom/lwgeom.c:1653-1705 | the second (x) sweep removes nothing |
| `Dedup.ThinnedIsNet` | postgis-src/liblwgeom/lwgeom.c:1649-1708 | the survivors are a sub-multiset, sorted by x, pairwise farther apart than the tolerance, and every non-empty point survives or is within the tolerance of a survivor |
| `Dedup.NoTolerance` | postgis-src/liblwgeom/lwgeom.c:1649-1708 | with no tolerance exactly the repeated points go: every place that occurs is left once |
| `Dedup.CloseOnAxis` | postgis-src/liblwgeom/lwgeom.c:1678-1684 | on a line parallel to an axis, points are close when one coordinate differs by no more than the tolerance; squared distances add up at a right angle |
| `Boundary.Ends` | postgis-src/liblwgeom/lwgeom.c:2595-2611 | the first and the last vertex, exactly when there are vertices and X, Y or, if present, Z tells these two apart; otherwise nothing |
| `Boundary.ToggledCounts` | postgis-src/liblwgeom/lwgeom.c:2625-2639 | toggling removes one occurrence of a point that is there and adds one otherwise |
| `Boundary.Toggle` | postgis-src/liblwgeom/lwgeom.c:2627-2639 | the search loop with its swap from the end is the toggle |
| `Boundary.MultiLineBoundary` | postgis-src/liblwgeom/lwgeom.c:2612-2653 | the nested loops give each point once at which an odd number of open lines start or end, and no other, within the reserved array |
| `Boundary.ToggleAllIsMod2` | postgis-src/liblwgeom/lwgeom.c:2625-2639 | toggling a list leaves each point once if it occurs an odd number of times, and not at all otherwise |
| `Boundary.BoundaryIsMod2` | postgis-src/liblwgeom/lwgeom.c:2612-2653 | a point is in the boundary, once, exactly when the open lines that start there and those that end there are odd in number together; the size is even and at most twice the number of lines |
| `Boundary.PathBoundary` | postgis-src/liblwgeom/lwgeom.c:2612-2653 | however many pieces a path is cut into, its boundary is its two ends, or nothing when they meet |

## Left out

- Floating-point rounding, overflow and NaN in the geometric computations: `real` arithmetic has none of them.
- 32-bit overflow of `decimal_digits * 851` in trimming, reached beyond two million digits.
- Rings of fewer than two vertices in simplification: no meaningful input of that code.
- Simplification entry points for lines and collections: they only select arguments for the modelled ones.
- Polygon shortcut of the distance search, and the Cartesian fallback with its padded radius when building the tree: both rest on geometric tests that are parameters here; trees without polygons are covered.
- In the distance search the children are sorted in place inside their parent; the model sorts a copy, so the reordering that later visits see is covered only by the claim holding for every order.
- The spheroid recalculation after the search, and finding a point outside a polygon for the stab line.
- The readers of the model check every length against the buffer and report an error; the code trusts its input there. On written buffers the two agree.
- Version 1 of the serialized form, and setting or dropping the box of a serialized geometry.
- Emptiness read from the bytes: rings without vertices inside collections are not skipped with their padding.
- Geodetic boxes are covered as stored and read back, not as computed or rounded from vertices.
- The three box loops for two, three and four ordinates are one method with the number of ordinates as a parameter.
- The variant of the hash for memory checkers, and big-endian hashing.
- `geohash_point_as_int`, which compares strictly and packs 32 bits: nothing new over the string form.
- Boundaries of other types than lines and multilines, and removal of repeated points in other types than multipoints.
- Boundary.MultiLineBoundary: a multicurve member other than a line or circular string is not modelled.
- Geometry constructors and editing, text and WKB formats, GEOS and topology wrappers, arcs, spheroid geodesy, minimum bounding circles, smoothing and clustering: easy members or code whose behaviour is not visible.
- Memory management, logging and interrupts, and the scripts around the library.
