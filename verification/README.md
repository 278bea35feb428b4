# model3d core, in Dafny

This project models five pieces of the model3d Go library and proves
properties about them.

- **Marching cubes** (`mc.go`) turns a solid into a triangle mesh. It
  covers:
  - the eight-corner masks and the 24 cube rotations;
  - the lookup table, which is grown from 23 base cases by rotation;
  - the lattice of grid cells;
  - the sliding solid cache;
  - the driver that emits the triangles of every cell.
- **Mesh repair and edge elimination** (`mesh_ops.go`):
  - Repair gathers vertices with overlapping spatial-hash cells into
    equivalence classes and moves each vertex to its class's canonical
    point. The classes are exactly the connected components of the
    relation "the cells are near".
  - NeedsRepair reports whether some edge is not shared by exactly two
    triangles.
  - EliminateEdges collapses segments to their midpoints. It relies on
    the neighbour count and on the check that refuses a collapse that
    would make two triangles coincide or turn one over. The driver takes
    a flag that selects the check. With the flag false it runs
    canEliminateSegment as written, which is what the source runs. With
    the flag true it runs the corrected check (see "## Findings").
- **Signed distance functions** (`model3d/sdf.go`):
  - a bounding-volume tree over triangles;
  - its pruned nearest-triangle search, in both the Dist and PointDist
    flavours;
  - the mesh SDF;
  - the bisection SDF for an arbitrary collider.
- **2D colliders** (`model2d/collisions.go`): segments and joined
  colliders answer ray-count, first-hit and circle queries. A joined
  collider asks its children only when the ray (a slab test) or the
  circle reaches its bounding box.
- **Mesh hierarchies** (`model2d/mesh_hierarchy.go`):
  - MeshToHierarchy strips closed loops off a manifold 2D mesh, lowest
    vertex first along a fixed axis, and nests each loop under the first
    polygon that contains it.
  - The file also defines the even-odd Contains test, leaf insertion,
    FullMesh and MapCoords.

The model is functional throughout. A panic of the source becomes a
`Failure` of the `Result` type in `wrappers.dfy`, and a pointer-based
structure becomes a datatype. Reals are exact; float rounding is not
modelled. What a file needs from code outside these five files is passed
in as a parameter. Examples are a solid's Contains, a triangle's
distance, a collider's SphereCollision and a segment's ray collision.

Besides restating what each operation computes, the proofs connect each
operation to an independent description of it:
- the rotation group is exactly 24 permutations, closed under
  composition and inverse;
- every mask has a table entry whose triangles lie on cube edges;
- the sliding cache answers exactly the solid;
- repaired vertices coincide exactly when a chain of near vertices
  joins them;
- the corrected elimination check is exactly "no flip and no twins";
- EliminateEdges returns the end of a chain of single-segment
  eliminations, each on a segment that passes the check and f;
- the pruned distance search equals the minimum over all triangles,
  for the trees GroupedTrianglesToSdf builds and any metric with sound
  box and triangle distances (MetricSound);
- the bounding-box filters of the joined collider never change an
  answer;
- the slab test holds exactly when the ray reaches the box;
- Contains obeys the even-odd rule;
- the loop walk yields a closed simple loop of mesh segments.

## Model

| member | source | states |
|---|---|---|
| McCube.Entries | mc.go:187-198 | the comparator reads the eight rotation entries in index order |
| McCube.InsideSet | mc.go:276-278 | a corner is in the set exactly when the mask's Inside test holds for it |
| McCube.MaskExtensionality | mc.go:257-260 | two masks with the same inside corners are the same mask |
| McCube.FromCorners | mc.go:268-272 | the OR loop sets exactly the bits of the listed corners |
| McCube.NewIntersections | mc.go:264-273 | more than eight corners is the panic; otherwise the mask holds exactly the listed corners |
| McCube.ApplyFromSpec | mc.go:228-236 | bit k of the partial loop result is set iff some remaining inside corner moves to k |
| McCube.ApplyIntersectionsSpec | mc.go:228-236 | bit k of the rotated mask is set iff some inside corner is moved to k |
| McRotationFacts.ComposeAt | mc.go:204-210 | entry i of m.Compose(m1) is m applied to entry i of m1 |
| McRotationFacts.ComposePermutation | mc.go:204-210 | composing two permutations of the corners gives a permutation |
| McRotationFacts.ComposeAssociative | mc.go:204-210 | composition is associative |
| McRotationFacts.IdentityUnit | mc.go:165 | the identity rotation is a unit for Compose on both sides |
| McRotationFacts.ComposePreservesEdges | mc.go:204-210 | the composition of two edge-preserving rotations preserves edges |
| McRotationFacts.ApplyIntersectionsMovesBits | mc.go:228-236 | for a permutation, bit m[c] of the rotated mask is bit c of the input |
| McRotationFacts.RotatedInsideSet | mc.go:228-236 | the inside set of a rotated mask is the image of the inside set |
| McRotationFacts.InjectiveImageSize | mc.go:228-236 | a permutation's image of a corner set has the same size |
| McRotationFacts.InverseGivesPermutation | mc.go:151-156 | a rotation with a left inverse is a permutation |
| McRotationFacts.EdgeCases | mc.go:107-133 | every cube edge is one of the twelve corner pairs of the diagram, taken in either direction |
| McRotationFacts.ListedEdge | mc.go:107-133 | each of the twelve corner pairs of the diagram, in either direction, is a cube edge |
| McRotationFacts.PopcountPreserved | mc.go:228-236 | rotating a mask keeps the number of inside corners |
| McRotationFacts.IdentityFixesMasks | mc.go:228-236 | the identity rotation maps every mask to itself |
| McRotationFacts.ApplyTriangleOnEdges | mc.go:218-224 | rotating a stencil by an edge-preserving rotation keeps every corner pair a cube edge |
| McRotationFacts.PermutationOnto | mc.go:151-156 | under a permutation every corner is the image of some corner |
| McRotationFacts.ApplyCompose | mc.go:204-236 | rotating by a composition is rotating by each factor in turn |
| McRotationFacts.EmptyOnlyFromEmpty | mc.go:228-236 | only the empty mask rotates to the empty mask |
| McRotationFacts.FullOnlyFromFull | mc.go:228-236 | only the full mask rotates to the full mask |
| McGroup.LexIrreflexive | mc.go:187-198 | the lexicographic comparator is irreflexive |
| McGroup.LexTransitive | mc.go:187-198 | the comparator is transitive |
| McGroup.LexAsymmetric | mc.go:187-198 | the comparator is asymmetric |
| McGroup.LexTotal | mc.go:187-198 | two different entry lists of equal length are ordered one way or the other |
| McGroup.SortedUnique | mc.go:185-198 | a strictly sorted sequence is determined by its set of elements, so the sort result does not depend on map order |
| McGroup.InsertSorted | mc.go:187-198 | insertion keeps the sequence sorted, adds exactly x and grows it by one |
| McGroup.SortRotations | mc.go:180-198 | the result is sorted, holds exactly the set's rotations, and has the set's size |
| McGroup.GeneratorsAreRotations | mc.go:161-163 | the z and x generators are edge-preserving permutations |
| McGroup.ClosureContainsExpected | mc.go:165-178 | every set holding the identity and closed under both generators holds all 24 rotations |
| McGroup.ExpectedSorted | mc.go:180-198 | the 24 rotations are listed in the comparator's strict order |
| McGroup.ExpectedClosedZ | mc.go:165-178 | composing the z generator with any of the 24 rotations gives one of them |
| McGroup.ExpectedClosedX | mc.go:165-178 | composing the x generator with any of the 24 rotations gives one of them |
| McGroup.ExpectedAreRotations | mc.go:158-163 | each of the 24 rotations is an edge-preserving permutation |
| McGroup.ExpectedClosedCompose | mc.go:158-201 | the 24 rotations are closed under composition |
| McGroup.ExpectedInverse | mc.go:158-201 | every one of the 24 rotations has its inverse among them |
| McGroup.Closure | mc.go:165-178 | the breadth-first search holds the identity, is closed under both generators, and stays within any closed bound |
| McGroup.Visit | mc.go:171-177 | a neighbour is recorded, and queued exactly when it was not seen before |
| McGroup.AllRotations | mc.go:160-201 | allMcRotations returns exactly the 24 sorted rotations, closed under the generators |
| McTable.RotateAll | mc.go:290-293 | each triangle of a base case is rotated in order |
| McTable.AddRowFirst | mc.go:286-297 | the first rotation to reach a key is the one stored |
| McTable.AddRowsFirst | mc.go:286-297 | over all base cases, the first (base, rotation) pair reaching a key decides its entry |
| McTable.LookupFirst | mc.go:282-304 | the entry for k is the rotated triangle list of the first base case and rotation whose mask is k |
| McTable.LookupMiss | mc.go:299-303 | a mask that no rotation reaches keeps the empty list |
| McTable.FirstHitExists | mc.go:286-297 | when some rotation of some base case reaches k, a first one exists |
| McTable.BaseMaskIsLit | mc.go:310-434 | each base key is newMcIntersections of its corner list |
| McTable.Covered | mc.go:282-434 | every one of the 256 masks is a rotation of some base case |
| McTable.BaseTableOnEdges | mc.go:310-434 | every corner pair of every base stencil spans a cube edge |
| McTable.BaseMaskExtremes | mc.go:310-434 | only the first base case is empty and only the last one is full |
| McTable.LookupEntry | mc.go:282-304 | for any iteration order of the base table, every mask's entry is the first-found rotation of a base case |
| McTable.ExtremeHit | mc.go:282-304 | a rotation that reaches the empty or the full mask comes from the empty or the full base case |
| McTable.ExtremeCasesEmpty | mc.go:310-434 | the empty and the full base case carry no triangle |
| McTable.LookupEmpty | mc.go:282-304 | the mask with no corner inside has no triangles |
| McTable.LookupFull | mc.go:282-304 | the mask with every corner inside has no triangles |
| McTable.RotateAllOnEdges | mc.go:290-293 | rotating edge stencils by an edge-preserving rotation gives edge stencils |
| McTable.LookupOnEdges | mc.go:282-304 | every stencil of every table entry joins cube edges |
| McLattice.CornerRoundTrip | mc.go:494-504 | IndexToCorner(CornerIndex(x, y, z)) gives back the corner |
| McLattice.IndexRoundTrip | mc.go:494-504 | every corner index in range comes from exactly one lattice corner |
| McLattice.SquareIndexInjective | mc.go:472-474 | different cells have different square indices |
| McLattice.IterateSquares | mc.go:458-474 | the loops visit NumSquares cells, each in range, the i-th having square index i |
| McLattice.CellIndexStep | mc.go:459-463 | the loop position of a cell is its square index |
| McLattice.OffsetCorner | mc.go:22-37 | mask bit k + 2j + 4i is the corner at offset (k, j, i) |
| McLattice.MaskFromInside | mc.go:22-40 | after n steps, bit c is set exactly for the inside corners among the first n |
| McLattice.MaskOfInside | mc.go:21-40 | the cell mask holds exactly the corners of the cell that the solid contains |
| McLattice.SquareIndexRange | mc.go:468-474 | the square index of every cell is below NumSquares |
| McCache.ValueAtCorner | mc.go:565-570 | the corner (x, y, zz) of the window sits at flat index CornerIndex |
| McCache.FillRow | mc.go:568-571 | one row of one plane is recomputed from the solid, and nothing else changes |
| McCache.FillPlane | mc.go:567-572 | one plane is recomputed, and nothing else changes |
| McCache.FillTail | mc.go:564-574 | values from lo on are recomputed from the solid, and values before lo are kept |
| McCache.NewCache | mc.go:516-528 | a fresh cache holds min(nz, 10) planes from plane 0, all agreeing with the solid |
| McCache.RecentreCovers | mc.go:549-550 | the re-centred window is in range and holds the requested plane |
| McCache.CopyCoherent | mc.go:557 | after the copy down, the front of the array agrees with the shifted window |
| McCache.Shift | mc.go:549-559 | moving the window keeps every cached value agreeing with the solid |
| McCache.Slide | mc.go:556-559 | the overlapping move: copy down, then refill the tail |
| McCache.Glue | mc.go:556-559 | a kept front plus a refilled tail make a coherent window |
| McCache.CornerValue | mc.go:544-562 | the answer is the solid's value at the corner; the cache stays coherent and now holds the plane |
| McCache.CornerInWindow | mc.go:546 | a corner of the window has its flat index inside the array |
| McMesh.EdgeMidpoint | mc.go:249-255 | the midpoint of a cube edge lies on that edge of the cell |
| McMesh.EdgeOffsets | mc.go:107-133 | corners joined by an edge differ in exactly one offset coordinate |
| McMesh.MidpointDeterminesEdge | mc.go:249-255 | two edges of a cell with the same midpoint join the same two corners |
| McMesh.TriangleOnEdges | mc.go:137-149 | every vertex of a triangle built from an edge stencil lies on an edge of its cell |
| McMesh.TrianglesMembers | mc.go:47-49 | a triangle is emitted for a cell exactly when some stencil of its entry builds it |
| McMesh.MeshMembers | mc.go:20-51 | a triangle is in the mesh exactly when some visited cell emits it |
| McMesh.CellMask | mc.go:21-40 | the mask is the cell's inside corners; the panic happens exactly when an inside corner is on the boundary |
| McMesh.CellCorner | mc.go:26-28 | the corners of a cell are lattice corners |
| McMesh.Visited | mc.go:458-466 | each cell sits in the visiting order at its square index |
| McMesh.MarchingCubes | mc.go:12-54 | the result fails exactly when some cell is true on the boundary; otherwise it holds exactly the triangles of every cell |
| McMesh.MeshStep | mc.go:20-51 | visiting one more cell appends exactly its triangles |
| McMesh.NoBadCell | mc.go:29-34 | when no visited cell panics, no cell of the lattice would |
| McMesh.MeshIsCells | mc.go:20-51 | visiting every cell emits exactly the triangles of every cell |
| McMesh.CellTrianglesOnEdges | mc.go:42-49 | every vertex emitted for a cell lies on an edge of that cell |
| McMesh.UniformCellEmpty | mc.go:42-43 | a cell entirely outside or entirely inside the solid emits no triangle |
| MeshCore.NewSegment | mesh_ops.go:271 | the segment joins the two given points, in one of the two orders |
| MeshCore.NewSegmentSymmetric | mesh_ops.go:271 | NewSegment does not depend on the order of its points |
| MeshCore.NewSegmentEqual | mesh_ops.go:271-277 | two segments are equal exactly when they join the same two points |
| MeshCore.VertexTriangles | mesh_ops.go:240-242 | lists, in increasing order, exactly the triangles holding p |
| MeshCore.Find | mesh_ops.go:161 | lists, in increasing order, exactly the triangles holding both points |
| MeshCore.NeedsRepair | mesh_ops.go:156-167 | true exactly when some edge of some triangle is not on exactly two triangles |
| MeshCore.Enumerate | mesh_ops.go:196-199 | lists every member of the set once |
| MeshRepair.HashesOrder | mesh_ops.go:88-96 | key 4i + 2j + k is the cell offset by (i, j, k) |
| MeshRepair.HashesBlock | mesh_ops.go:88-102 | the eight keys are exactly the 2x2x2 block of cells from the vertex's cell |
| MeshRepair.HashesDistinct | mesh_ops.go:88-102 | the eight keys are distinct |
| MeshRepair.HashesOverlap | mesh_ops.go:88-102 | two vertices share a key exactly when their cells are near |
| MeshRepair.AppendNew | mesh_ops.go:123-134 | the found loop adds exactly the keys not yet listed, keeping the list free of repeats |
| MeshRepair.MergeMembers | mesh_ops.go:120-135 | the merged class holds the new point and the points and keys of every merged class, with no repeated key |
| MeshRepair.Assign | mesh_ops.go:136-138 | every listed key now leads to the class, and every other key is unchanged |
| MeshRepair.StepValid | mesh_ops.go:85-140 | one vertex keeps the invariant: the classes partition the seen points, and near points share a class |
| MeshRepair.StepClasses | mesh_ops.go:103-139 | the new class replaces exactly the classes that the vertex's keys hit |
| MeshRepair.StepKeys | mesh_ops.go:103-139 | the new class takes its keys and the keys of every merged class, and the other keys are kept |
| MeshRepair.AddVertex | mesh_ops.go:86-139 | one pass of the vertex loop creates or merges classes as the source does and keeps the invariant |
| MeshRepair.CanonicalMap | mesh_ops.go:142-147 | every element of every class maps to the canonical point of a class that holds it |
| MeshRepair.Relabel | mesh_ops.go:149-151 | every corner of every triangle is replaced by its image |
| MeshRepair.Classify | mesh_ops.go:85-140 | after the vertex loop, the classes partition all vertices, near vertices share a class, and every point of a class is joined to its canonical point by a chain of near vertices |
| MeshRepair.StepJoined | mesh_ops.go:97-139 | one vertex keeps the invariant that each class only gathers points chained by nearness: a class is hit only through a key of one of its points, and that point's cell is near the new vertex's cell |
| MeshRepair.JoinedLink | mesh_ops.go:114-135 | every point of the merged class is chained by nearness to the new vertex c, its canonical point |
| MeshRepair.IsolatedAlone | mesh_ops.go:103-113 | a vertex whose cell is near no other vertex's cell is chained to itself only |
| MeshRepair.Prepare | mesh_ops.go:141-147 | after both loops, every vertex has an image, the image is a vertex chained to it, and vertices with near cells share their image |
| MeshRepair.ImagesLinked | mesh_ops.go:142-147 | each point maps to the canonical point of its own class, which is chained to it by nearness |
| MeshRepair.SameImageLinked | mesh_ops.go:142-151 | two vertices get the same canonical point exactly when a chain of near vertices joins them |
| MeshRepair.ChainSameImage | mesh_ops.go:142-151 | every point along a chain of near vertices maps to the same canonical point |
| MeshRepair.Canonicalize | mesh_ops.go:83-147 | the lookup that Repair relabels with has the properties Prepare states |
| MeshRepair.Repaired | mesh_ops.go:149-151 | relabelling with that lookup moves each corner to a vertex chained to it, merges two corners exactly when they are chained, and leaves an isolated corner in place |
| MeshRepair.NearSameImage | mesh_ops.go:97-147 | any two points with near cells map to the same canonical point |
| MeshRepair.Mapped | mesh_ops.go:142-147 | every seen point has an image, and the image is a seen point |
| MeshRepair.StepOwners | mesh_ops.go:103-139 | after one vertex, keys and live classes still point at each other, and every live id is below the next id |
| MeshRepair.StepPartition | mesh_ops.go:103-139 | after one vertex, the classes stay disjoint, hold only seen points (now with c), and each holds its canonical point |
| MeshRepair.StepCovered | mesh_ops.go:88-139 | after one vertex, each of the eight keys of every seen point leads to a class holding that point |
| MeshRepair.KeyStillLeads | mesh_ops.go:115-139 | a key that led to a class holding v still leads to a class holding v |
| MeshRepair.SameClass | mesh_ops.go:97-139 | two points with near cells get the same canonical point |
| MeshRepair.Repair | mesh_ops.go:82-152 | the mesh keeps its size. Every corner moves to the canonical point of its class, a mesh vertex chained to it by near vertices. Two corners end up at the same point exactly when such a chain joins them, so the classes are the connected components of nearness. Corners with near cells end up together, and a corner whose cell is near no other vertex's cell keeps its coordinate |
| MeshElim.NeighborsForSegment | mesh_ops.go:239-251 | each triangle's count is the number of endpoint lists it appears in |
| MeshElim.CountInto | mesh_ops.go:244-249 | one loop adds one to the count of every listed triangle |
| MeshElim.VisitsOf | mesh_ops.go:258-270 | the check's loop body sees each visited triangle in order |
| MeshElim.CheckAccepts | mesh_ops.go:258-287 | the loop accepts exactly when no unskipped visit repeats an earlier edge or flips |
| MeshElim.RepeatRefused | mesh_ops.go:272-277 | meeting the same visit twice refuses the segment |
| MeshElim.AllSkippedAccepted | mesh_ops.go:266-270 | a walk that skips everything accepts |
| MeshElim.AsWrittenRefusesLeadingEdge | mesh_ops.go:259-270 | as written, a triangle holding the segment as its first two points makes the check refuse |
| MeshElim.SkippedMeansBoth | mesh_ops.go:260-270 | the corrected check skips a proper triangle exactly when it holds both endpoints |
| MeshElim.PairedSingle | mesh_ops.go:260-265 | a triangle with one endpoint keeps an edge with neither endpoint |
| MeshElim.CanEliminateMeans | mesh_ops.go:253-288 | the corrected check passes exactly when no neighbour flips and no two neighbours would coincide |
| MeshElim.WalkVisits | mesh_ops.go:258-270 | an unskipped visit is exactly a triangle holding one endpoint |
| MeshElim.AcceptsSound | mesh_ops.go:253-288 | acceptance implies no flip and no twins |
| MeshElim.AcceptsComplete | mesh_ops.go:253-288 | no flip and no twins implies acceptance |
| MeshElim.WalkFindsPaired | mesh_ops.go:254-259 | every triangle holding one endpoint is on the walk |
| MeshElim.WalkMeetsPairedOnce | mesh_ops.go:254-259 | such a triangle appears on the walk only once |
| MeshElim.LeadingEdgeExample | mesh_ops.go:259-270 | for (a,b,c),(b,a,d) and segment {a,b}, the check as written refuses and the corrected check accepts |
| MeshElim.Collapse | mesh_ops.go:304-313 | the collapsed triangle holds the midpoint when it held an endpoint, and no endpoint remains |
| MeshElim.CollapsePaired | mesh_ops.go:304-313 | a one-endpoint neighbour collapses onto the midpoint and its kept edge |
| MeshElim.EliminatedMembers | mesh_ops.go:293-315 | a triangle survives exactly when it was no neighbour, or is a once-counted neighbour collapsed |
| MeshElim.EliminatedShrinks | mesh_ops.go:301-303 | dropping a neighbour whose count is not one shrinks the mesh |
| MeshElim.EliminatedKeepsAll | mesh_ops.go:301-314 | with every neighbour counted once, no triangle is lost |
| MeshElim.EliminateShrinks | mesh_ops.go:293-303 | when some triangle holds both endpoints of the segment, elimination removes at least one triangle |
| MeshElim.CollapseNeighbor | mesh_ops.go:304-313 | the neighbour is collapsed, and each new segment touches the midpoint |
| MeshElim.CollapseAt | mesh_ops.go:305-312 | position i moves to the midpoint and adds its two segments exactly when it is an endpoint |
| MeshElim.SetAt | mesh_ops.go:306 | position i becomes p and the other positions are kept |
| MeshElim.EliminateSegment | mesh_ops.go:290-316 | the mesh becomes the eliminated mesh, the segment list only grows, and touched segments leave the remaining set |
| MeshElim.EliminateEdges | mesh_ops.go:177-214 | for either check, the as-written one the source runs or the corrected one: the result is reached from m by a chain of eliminations (the ghost trace), each collapsing one segment that passes the check and f, as eliminateSegment does with that segment's neighbour counts. The mesh never grows, and a mesh where no segment passes the check and f comes back unchanged |
| MeshElim.TrySegment | mesh_ops.go:201-210 | a segment is collapsed exactly when it remains, passes the selected check (canEliminateSegment as written when the flag is false) and f approves. A collapse yields exactly the mesh eliminateSegment leaves for that segment's neighbour counts, and otherwise nothing changes |
| MeshElim.TraceExtend | mesh_ops.go:193-212 | a chain of eliminations followed by one more elimination is again a chain, from the same start |
| MeshElim.NotStuck | mesh_ops.go:193-212 | a segment that passes the selected check and f means the driver is not stuck |
| MeshElim.AsWrittenImpliesCorrected | mesh_ops.go:254-281 | whatever the check as written accepts, the corrected check accepts too |
| MeshElim.StuckAsWritten | mesh_ops.go:193-212 | a mesh that the corrected driver leaves alone is also left alone by the driver as written |
| MeshElim.FaceAwayFrom | mesh_ops.go:254-270 | a face (u, w, x) is a one-endpoint neighbour of the segment {u, v}, and keeps the edge {w, x} |
| MeshElim.OppositeFacesRefused | mesh_ops.go:272-277 | two faces that would be laid onto each other refuse the segment |
| MeshElim.TwinsRefused | mesh_ops.go:271-277 | two one-endpoint neighbours keeping the same edge refuse the segment |
| MeshElim.TetrahedronRigid | mesh_ops_test.go:54-86 | no segment of a tetrahedron passes either check, so EliminateEdges keeps all four triangles whatever f approves, both as written and corrected |
| MeshElim.TetrahedronFace | mesh_ops_test.go:54-86 | each edge of each face of a tetrahedron is shared with exactly two faces |
| MeshElim.TetrahedronManifold | mesh_ops_test.go:76-78 | the tetrahedron needs no repair |
| MeshElim.FindSymmetric | mesh_ops.go:161 | Find does not depend on the order of its two points |
| Sdf.MinOf | model3d/sdf.go:169 | math.Min: one of the two, and at most both |
| Sdf.Build | model3d/sdf.go:143-157 | the tree's leaves are the input triangles in order |
| Sdf.BuildSplit | model3d/sdf.go:148-150 | the left child holds the first len/2 triangles and the right the rest |
| Sdf.BuildBoxed | model3d/sdf.go:143-157 | every box is the tight box of the triangles below it |
| Sdf.Encloses | model3d/sdf.go:143-157 | every corner of every triangle below a node lies in the node's box |
| Sdf.Order | model3d/sdf.go:172-180 | the children come in ascending bound order, left first on a tie |
| Sdf.Dist | model3d/sdf.go:167-188 | the result never exceeds curMin and is finite when curMin is infinite |
| Sdf.NearestIsMin | model3d/sdf.go:167-188 | Nearest is at most every leaf's distance and equals one of them |
| Sdf.NearestNonNeg | model3d/sdf.go:167-188 | the nearest distance is non-negative |
| Sdf.NearBound | model3d/sdf.go:182 | the box distance bounds the nearest triangle's squared distance |
| Sdf.PruneSafe | model3d/sdf.go:182-184 | a pruned child could not have improved curMin |
| Sdf.DistExact | model3d/sdf.go:167-188 | with sound bounds (Tight), Dist is the minimum of curMin and the nearest triangle's distance |
| Sdf.DistAttained | model3d/sdf.go:167-188 | Dist answers curMin or the distance of a triangle below the node |
| Sdf.PointDist | model3d/sdf.go:190-216 | the best distance never grows; a change is a strict improvement and is finite |
| Sdf.PointDistAttained | model3d/sdf.go:190-198 | a changed best point is the closest point of some leaf, at that point's distance |
| Sdf.PointDistAgrees | model3d/sdf.go:167-216 | PointDist reaches the same distance as Dist |
| Sdf.GroupedTrianglesToSdf | model3d/sdf.go:106-114 | an empty list is the panic; otherwise the tree holds the triangles with tight boxes |
| Sdf.MeshSdfExact | model3d/sdf.go:116-123 | with sound bounds (Tight), the SDF is the nearest triangle's distance, negated exactly when the solid excludes c |
| Sdf.PointSdfExact | model3d/sdf.go:125-133 | with sound bounds (Tight) and triangle distances that are closest-point distances (Consistent), PointSDF has the same value as SDF and returns the closest point of a nearest triangle |
| Sdf.LeafBoxWithin | model3d/sdf.go:143-157 | the bounding box of every triangle below a node lies in the node's box |
| Sdf.BoxedLowerBound | model3d/sdf.go:172-184 | with a sound metric, a tight box's distance bounds the squared distance of every triangle below it, so pruning by it is safe |
| Sdf.SoundTight | model3d/sdf.go:167-216 | on a tree with tight boxes and a sound metric, Tight and Consistent hold |
| Sdf.BuiltSdfExact | model3d/sdf.go:106-133 | for the tree GroupedTrianglesToSDF builds and a sound metric, the SDF's magnitude is the least distance of an input triangle, and PointSDF agrees with it |
| Sdf.Iterations | model3d/sdf.go:40-43 | 0 iterations means the default of 32; any other count is kept |
| Sdf.BoundLoop | model3d/sdf.go:72-82 | both ends stay positive with the initial answer; the step doubles or halves |
| Sdf.BoundDistance | model3d/sdf.go:68-88 | a positive interval whose upper end equals the lower end or twice it, and which brackets a change of answer or else answers as distance 1 does |
| Sdf.Bisect | model3d/sdf.go:53-60 | the interval shrinks within the old one and keeps a miss below and a hit above |
| Sdf.BisectWidth | model3d/sdf.go:53-60 | each step halves the interval's width |
| Sdf.ColliderSdf | model3d/sdf.go:51-66 | the magnitude lies within the bound interval, negated when the solid excludes the point |
| Sdf.ColliderSdfError | model3d/sdf.go:51-66 | for a threshold collider with a bracketing bound, the result is within half the final width of the true distance |
| Collisions.NewJoined | model2d/collisions.go:107-118 | the joined collider holds exactly the given children |
| Collisions.FoldMinBounds | model2d/collisions.go:108-113 | the running minimum is below every child's and equals some child's, on each axis |
| Collisions.FoldMaxBounds | model2d/collisions.go:108-113 | the running maximum is above every child's and equals some child's, on each axis |
| Collisions.NewJoinedBounds | model2d/collisions.go:107-118 | the box encloses every child's box, and each side is some child's side |
| Collisions.SlabInterval | model2d/collisions.go:193-204 | an axis's parameter interval holds t exactly when the point at t is in the slab |
| Collisions.AxisStepMeans | model2d/collisions.go:186-204 | one axis narrows the window to the parameters inside the slab; the early return means no parameter is inside |
| Collisions.OpenMeans | model2d/collisions.go:206 | the final test holds exactly when some non-negative parameter is in the window |
| Collisions.AxisKeeps | model2d/collisions.go:186-204 | a parameter inside the slab survives the axis step |
| Collisions.AxisBack | model2d/collisions.go:186-204 | a parameter that survives the axis step is inside the slab |
| Collisions.PassesAt | model2d/collisions.go:185-207 | a ray inside the box at some t >= 0 passes the test |
| Collisions.ReachesBox | model2d/collisions.go:185-207 | a ray passing the test of a non-empty box is inside it at some t >= 0 |
| Collisions.SlabExact | model2d/collisions.go:185-207 | for a non-empty box, the test passes exactly when the ray reaches the box at some t >= 0 |
| Collisions.ChildHits | model2d/collisions.go:144-154 | the children's first hits, in order |
| Collisions.PickAllMeans | model2d/collisions.go:144-154 | the loop collides iff some child does, keeps the nearest distance, and takes its distance and normal from a colliding child |
| Collisions.FirstHitMeans | model2d/collisions.go:140-157 | no hit when the box test fails; otherwise a hit exactly when some child collides, at the nearest distance |
| Collisions.CircleListMeans | model2d/collisions.go:176-182 | the loop answers true exactly when some child collides |
| Collisions.CircleMeans | model2d/collisions.go:159-183 | false when the box is farther than the radius; otherwise true exactly when some child collides |
| Collisions.BoxDistLower | model2d/collisions.go:160-174 | the squared box distance is at most the squared distance to any point of the box |
| Collisions.NewJoinedSound | model2d/collisions.go:107-118 | joining sound colliders gives a sound collider |
| Collisions.FlattenInBox | model2d/collisions.go:107-118 | every segment of a sound collider lies in its box |
| Collisions.HitPasses | model2d/collisions.go:129-131 | a segment hit ahead of the origin makes every enclosing collider pass the slab test |
| Collisions.CountFlat | model2d/collisions.go:128-138 | the box filter never changes the count: it is the hit count of the flat segment list |
| Collisions.CountListFlat | model2d/collisions.go:133-137 | the children's counts add up to the flat list's count |
| Collisions.PickAllRebase | model2d/collisions.go:144-154 | running the loop from any start is picking between that start and the loop's answer from zero |
| Collisions.FirstFlat | model2d/collisions.go:140-157 | picking a sound collider's answer is running the loop over its flat segment list |
| Collisions.FirstListFlat | model2d/collisions.go:144-154 | the same over a list of children |
| Collisions.FirstHitFlat | model2d/collisions.go:140-157 | the first hit agrees with the flat list in collision, distance and normal |
| Collisions.CircleFlat | model2d/collisions.go:159-183 | a sound collider touches the circle exactly when one of its segments does |
| Collisions.CircleListFlat | model2d/collisions.go:176-182 | the same over a list of children |
| Collisions.SegCountAgrees | model2d/collisions.go:61-73 | a segment counts one ray collision exactly when its first ray collision collides |
| Collisions.CountAgrees | model2d/collisions.go:128-157 | the count is non-negative, and positive exactly when the first ray collision collides |
| Collisions.CountListAgrees | model2d/collisions.go:133-154 | the same over a list of children and a running answer |
| Hierarchy.AnyContainsMeans | model2d/mesh_hierarchy.go:130-134 | the children loop answers true exactly when some child contains c |
| Hierarchy.ContainsMeans | model2d/mesh_hierarchy.go:126-136 | false outside the node's own solid; inside it, true exactly when no child contains c |
| Hierarchy.DepthListOne | model2d/mesh_hierarchy.go:7-9 | with at most one child reaching c, the children's depth is that child's depth |
| Hierarchy.EvenOdd | model2d/mesh_hierarchy.go:126-136 | in a nested tree, c is contained exactly when an odd number of its polygons contain c |
| Hierarchy.FirstInside | model2d/mesh_hierarchy.go:77-82 | the position of the first child whose solid contains v, or the child count when none does |
| Hierarchy.InsertLeafAdds | model2d/mesh_hierarchy.go:75-87 | the tree gains exactly the new polygon and keeps every other polygon |
| Hierarchy.InsertLeafGrows | model2d/mesh_hierarchy.go:75-87 | insertLeaf adds exactly one node |
| Hierarchy.InsertLeafShape | model2d/mesh_hierarchy.go:75-87 | insertLeaf descends into the first child containing v, or appends a new leaf when there is none; the rest stays |
| Hierarchy.FullMeshMeans | model2d/mesh_hierarchy.go:91-97 | a segment is in FullMesh exactly when some polygon of the tree has it |
| Hierarchy.FullMeshInsert | model2d/mesh_hierarchy.go:75-97 | inserting a leaf adds exactly the leaf's segments to FullMesh |
| Hierarchy.MapMesh | model2d/mesh_hierarchy.go:103 | both ends of every segment are mapped, in order |
| Hierarchy.MapCoordsShape | model2d/mesh_hierarchy.go:101-110 | the result has the same child count at every node, and each node's mesh is mapped |
| Hierarchy.MapCoordsIdentity | model2d/mesh_hierarchy.go:101-110 | mapping by the identity gives the same tree |
| HierarchyBuild.OutgoingMeans | model2d/mesh_hierarchy.go:145-148 | x is an outgoing neighbour of c exactly when the segment c to x is in the mesh |
| HierarchyBuild.IncomingMeans | model2d/mesh_hierarchy.go:145 | x is an incoming neighbour of c exactly when the segment x to c is in the mesh |
| HierarchyBuild.OneIncoming | model2d/mesh_hierarchy.go:145 | a vertex passing the check has a unique incoming segment |
| HierarchyBuild.Fresh | model2d/mesh_hierarchy.go:142-154 | with one-in, one-out vertices the walk returns to no vertex except its start |
| HierarchyBuild.Step | model2d/mesh_hierarchy.go:148-154 | one step extends the path, keeps its vertices distinct, and closes the loop when it reaches the start |
| HierarchyBuild.Walk | model2d/mesh_hierarchy.go:142-155 | a successful walk is a closed loop through the start with distinct vertices, made of mesh segments |
| HierarchyBuild.RemoveAllConnected | model2d/mesh_hierarchy.go:140-156 | the stripped segments form a closed chain from the start back to it, each one a mesh segment |
| HierarchyBuild.WalkFails | model2d/mesh_hierarchy.go:144-146 | the walk fails only when some vertex does not have exactly one outgoing and one incoming segment |
| HierarchyBuild.WalkManifold | model2d/mesh_hierarchy.go:140-156 | on a manifold mesh the walk from any mesh vertex succeeds |
| HierarchyBuild.RemoveAllConnectedOutcome | model2d/mesh_hierarchy.go:140-156 | succeeds from every vertex of a manifold mesh, and fails only at a vertex breaking the check |
| HierarchyBuild.MinFrom | model2d/mesh_hierarchy.go:43-48 | the scan keeps a listed vertex no higher along the axis than any scanned one |
| HierarchyBuild.MinFromFirst | model2d/mesh_hierarchy.go:45-47 | a strictly smaller value replaces the best, so the earliest minimum is kept |
| HierarchyBuild.MinVertexMeans | model2d/mesh_hierarchy.go:43-48 | minVertex is the first listed vertex with the smallest dot product with arbitraryAxis |
| HierarchyBuild.Without | model2d/mesh_hierarchy.go:152 | RemoveFromList drops exactly the visited vertices, and the list shrinks when one is listed |
| HierarchyBuild.PlaceMeans | model2d/mesh_hierarchy.go:53-67 | the loop becomes a new root exactly when no root's solid contains its minimum vertex; the hierarchy gains exactly the loop |
| HierarchyBuild.PlaceSound | model2d/mesh_hierarchy.go:53-67 | placing a loop of mesh segments keeps every polygon made of mesh segments |
| HierarchyBuild.MeshToHierarchy | model2d/mesh_hierarchy.go:29-34 | a non-manifold mesh is the panic "mesh must be manifold" |
| HierarchyBuild.GrowManifold | model2d/mesh_hierarchy.go:36-71 | on a manifold mesh the loop strips every listed vertex without failing |
| HierarchyBuild.GrowSound | model2d/mesh_hierarchy.go:36-71 | every polygon placed in the hierarchy is made of mesh segments |
| HierarchyBuild.MeshToHierarchyMeans | model2d/mesh_hierarchy.go:29-71 | succeeds exactly on manifold meshes, and every resulting polygon is made of mesh segments |

## Left out

- Floating point is not modelled. Coordinates and distances are exact reals, and no rounding, NaN or overflow is modelled.
- `mesh.go` is not part of this model; `MeshCore` states what the operations need from the Mesh type, and Mesh.Manifold of the 2D mesh is taken to mean one outgoing and one incoming segment at every vertex.
- The triangle, segment and Coord3D files are not part of this model. Triangle.Dist, Triangle.Closest, Coord3D.Dist, Segment.Normal, Segment.Min/Max and pointToBoundsDistSquared are either parameters or taken to be the component-wise bounds of the endpoints.
- `ptr_mesh.go` is not part of this model. The pointer mesh is modelled as the fixed list of directed segments together with the list of vertices not yet stripped.
- Ray.Collision, Segment.CircleCollision, Solid.Contains and Collider.SphereCollision are parameters. The collider theorems assume three hypotheses about them, stated as predicates: HitsInBox and CircleNear (a segment hit lies in the segment's box) and Threshold (the sphere test is a distance threshold).
- Go map iteration order:
  - In Repair, vertices come in a chosen order and classes are merged in any order.
  - In mcLookupTable, the base table may be visited in any order (LookupEntry).
  - In EliminateEdges, segments are listed through Enumerate.
  - The sorted rotation list is independent of map order (SortedUnique).
- McTable: it is not proved that every iteration order of the base table gives the same table. Each mask's entry is proved to be the first-found rotation for any order.
- Repair: math.Round(c/epsilon) is the parameter `cell`, so the results hold for any cell assignment. The canonical point of a merged class is the current vertex c, as the code writes it (mesh_ops.go:115-119).
- MeshElim.EliminateEdges: carries a fuel bound on segment visits. It does not prove that the fixpoint loop terminates, and a pass that runs out of fuel returns the current mesh. So it does not promise progress or that the result admits no further elimination, only that the result comes from a chain of permitted eliminations (possibly empty).
- Sdf.Build: requires at least one triangle. On an empty list the source's newMeshDistFunc recurses forever, because the split index is 0 and `tris[0:]` is the same empty list again (model3d/sdf.go:148-150). Only the panic of GroupedTrianglesToSDF on empty input (model3d/sdf.go:107-109) keeps the source from reaching that case, and the model's GroupedTrianglesToSdf has the same guard.
- EliminateCoplanar is not modelled. Its normal comparison with a float epsilon is just an `f` passed to EliminateEdges.
- MarchingCubesSearch is not modelled. It bisects along edges using float modulus tests on coordinates, outside the lattice model.
- newSquareSpacer's float grid, CornerCoord, IterateCorners and NumInteriorCorners are not modelled. Only the number of grid lines matters, and MarchingCubes does not call the last two.
- MeshToSDF's GroupTriangles only reorders the triangles for speed; it is not part of this model.
- MeshHierarchy.Min and Max are not modelled. They return the solid's bounds, which come from the parameter.
- GroupSegments in uncheckedMeshToHierarchy only reorders the stripped segments; it is not part of this model.
- Mesh.VertexSlice's order is not modelled. Its first entry is the parameter `firstVertex`.
- HierarchyBuild.MeshToHierarchyMeans: proves that every polygon is made of mesh segments. It does not prove that every mesh segment ends up in some polygon.
- Sdf.DistExact, Sdf.MeshSdfExact, Sdf.PointSdfExact: assume Tight (every child's box distance is at most the squared distance of each triangle below it, and triangle distances are non-negative); Sdf.PointSdfExact also assumes Consistent (a triangle's distance is the distance of its closest point). Sdf.SoundTight derives both for every tree with tight boxes from MetricSound, an assumption about pointToBoundsDistSquared, Triangle.Dist, Triangle.Closest and Coord3D.Dist: the squared box distance is at most the squared distance of every point of the box, and a triangle's closest point lies in its bounding box at the triangle's non-negative distance. Those functions are outside this model, so MetricSound is not proved.
- McCache.CornerValue: requires a lattice corner. For a plane z >= len(Zs) or z < 0 the source re-centres to a window that still excludes z and recurses forever (mc.go:544-562), and an x or y off the lattice indexes the wrong cache entry or past the array. MarchingCubes asks only for lattice corners.
- Sdf.ColliderSdfError: assumes that the sphere test is an exact threshold and that the bound interval brackets the change of answer.

## Findings

| source | as written | input that shows it | evidently intended | confidence | as-written member | corrected member |
|---|---|---|---|---|---|---|
| mesh_ops.go:259-270 | when a triangle holds the segment as its points 0 and 1, p1 becomes t[1], an endpoint, and p2 becomes t[2]. That triangle is not skipped. It is visited from both endpoints' lists, so the duplicate edge refuses the segment | triangles (a,b,c) and (b,a,d), segment {a,b} | skip every triangle that holds both endpoints | not executed | MeshElim.AsWrittenRefusesLeadingEdge | MeshElim.CanEliminateMeans |
