/** MarchingCubes (mc.go): walk every cell of the lattice, assemble its
    corner mask through the solid cache, look the mask up in the table and
    emit one triangle per table entry. Coordinates are kept on the lattice:
    a vertex is written as twice its lattice position, so edge midpoints
    stay integral; the float spacing of the squareSpacer is not modelled. */
module McMesh {
  import opened Wrappers
  import opened McCube
  import opened McLattice
  import opened McCache
  import opened McGroup
  import opened McTable

  /** A point at twice its lattice coordinates. */
  datatype Point = Point(x: int, y: int, z: int)

  /** The three vertices of a Triangle, in the order mcTriangle lists its edges. */
  datatype Tri = Tri(p1: Point, p2: Point, p3: Point)

  /** mcCornerCoordinates: corner c of cell (x, y, z) is the cell's minimum
      corner moved by one step along each axis whose bit c sets. */
  function LatticeCorner(x: int, y: int, z: int, c: Corner): Point
  {
    var (dx, dy, dz) := CornerOffset(c);
    Point(x + dx, y + dy, z + dz)
  }

  /** Coord3D.Mid, doubled: the sum of the two points. */
  function Mid2(p: Point, q: Point): Point
  {
    Point(p.x + q.x, p.y + q.y, p.z + q.z)
  }

  /** mcTriangle.Triangle: one vertex per edge of the stencil, at the
      edge's midpoint. */
  function Triangle(x: int, y: int, z: int, t: Stencil): Tri
  {
    Tri(Mid2(LatticeCorner(x, y, z, t.a0), LatticeCorner(x, y, z, t.b0)),
        Mid2(LatticeCorner(x, y, z, t.a1), LatticeCorner(x, y, z, t.b1)),
        Mid2(LatticeCorner(x, y, z, t.a2), LatticeCorner(x, y, z, t.b2)))
  }

  /** p (doubled) is the midpoint of an edge of cell (x, y, z): it is
      halfway along exactly one axis and at a face of the cell on the other
      two. */
  predicate OnCellEdge(p: Point, x: int, y: int, z: int)
  {
    var (u, v, w) := (p.x - 2 * x, p.y - 2 * y, p.z - 2 * z);
    (u == 1 && (v == 0 || v == 2) && (w == 0 || w == 2))
    || ((u == 0 || u == 2) && v == 1 && (w == 0 || w == 2))
    || ((u == 0 || u == 2) && (v == 0 || v == 2) && w == 1)
  }

  /** The midpoint of a cube edge lies on that edge of the cell. */
  lemma EdgeMidpoint(x: int, y: int, z: int, a: Corner, b: Corner)
    requires IsEdge(a, b)
    ensures OnCellEdge(Mid2(LatticeCorner(x, y, z, a), LatticeCorner(x, y, z, b)), x, y, z)
  {
    EdgeOffsets(a, b);
  }

  /** Corners joined by an edge differ in exactly one offset coordinate. */
  lemma EdgeOffsets(a: Corner, b: Corner)
    requires IsEdge(a, b)
    ensures var p, q := CornerOffset(a), CornerOffset(b);
      (p.0 != q.0 && p.1 == q.1 && p.2 == q.2) || (p.0 == q.0 && p.1 != q.1 && p.2 == q.2)
      || (p.0 == q.0 && p.1 == q.1 && p.2 != q.2)
  {
    if a == 0 {} else if a == 1 {} else if a == 2 {} else if a == 3 {}
    else if a == 4 {} else if a == 5 {} else if a == 6 {} else {}
  }

  /** Offsets of two corners of the unit cube joined by an edge. */
  predicate UnitEdge(p: (int, int, int), q: (int, int, int))
  {
    0 <= p.0 <= 1 && 0 <= p.1 <= 1 && 0 <= p.2 <= 1
    && 0 <= q.0 <= 1 && 0 <= q.1 <= 1 && 0 <= q.2 <= 1
    && ((p.0 != q.0 && p.1 == q.1 && p.2 == q.2) || (p.0 == q.0 && p.1 != q.1 && p.2 == q.2)
        || (p.0 == q.0 && p.1 == q.1 && p.2 != q.2))
  }

  /** The coordinate sums of a unit-cube edge determine its two ends. */
  lemma UnitEdgeSum(p: (int, int, int), q: (int, int, int), p': (int, int, int), q': (int, int, int))
    requires UnitEdge(p, q) && UnitEdge(p', q')
    requires p.0 + q.0 == p'.0 + q'.0 && p.1 + q.1 == p'.1 + q'.1 && p.2 + q.2 == p'.2 + q'.2
    ensures (p == p' && q == q') || (p == q' && q == p')
  {
  }

  lemma OffsetRange(c: Corner)
    ensures 0 <= CornerOffset(c).0 <= 1 && 0 <= CornerOffset(c).1 <= 1 && 0 <= CornerOffset(c).2 <= 1
  {
  }

  /** An edge midpoint determines its edge: two edges of a cell with the
      same midpoint join the same two corners. */
  lemma MidpointDeterminesEdge(x: int, y: int, z: int, a: Corner, b: Corner, a': Corner, b': Corner)
    requires IsEdge(a, b) && IsEdge(a', b')
    requires Mid2(LatticeCorner(x, y, z, a), LatticeCorner(x, y, z, b))
      == Mid2(LatticeCorner(x, y, z, a'), LatticeCorner(x, y, z, b'))
    ensures (a == a' && b == b') || (a == b' && b == a')
  {
    EdgeOffsets(a, b);
    EdgeOffsets(a', b');
    OffsetRange(a);
    OffsetRange(b);
    OffsetRange(a');
    OffsetRange(b');
    UnitEdgeSum(CornerOffset(a), CornerOffset(b), CornerOffset(a'), CornerOffset(b'));
    OffsetInjective(a, a');
    OffsetInjective(a, b');
    OffsetInjective(b, a');
    OffsetInjective(b, b');
  }

  lemma OffsetInjective(a: Corner, b: Corner)
    ensures CornerOffset(a) == CornerOffset(b) ==> a == b
  {
  }

  /** Every triangle built from an on-edge stencil has its vertices on the
      edges of its cell. */
  lemma TriangleOnEdges(x: int, y: int, z: int, t: Stencil)
    requires OnEdges(t)
    ensures OnCellEdge(Triangle(x, y, z, t).p1, x, y, z)
    ensures OnCellEdge(Triangle(x, y, z, t).p2, x, y, z)
    ensures OnCellEdge(Triangle(x, y, z, t).p3, x, y, z)
  {
    EdgeMidpoint(x, y, z, t.a0, t.b0);
    EdgeMidpoint(x, y, z, t.a1, t.b1);
    EdgeMidpoint(x, y, z, t.a2, t.b2);
  }

  /* ---------------- the driver ---------------- */

  function Triangles(x: int, y: int, z: int, ts: seq<Stencil>): (r: seq<Tri>)
    ensures |r| == |ts|
  {
    if |ts| == 0 then [] else [Triangle(x, y, z, ts[0])] + Triangles(x, y, z, ts[1..])
  }

  lemma {:induction false} TrianglesMembers(x: int, y: int, z: int, ts: seq<Stencil>, t: Tri)
    ensures t in Triangles(x, y, z, ts) <==> exists i :: 0 <= i < |ts| && t == Triangle(x, y, z, ts[i])
  {
    if |ts| > 0 {
      TrianglesMembers(x, y, z, ts[1..], t);
      if t in Triangles(x, y, z, ts[1..]) {
        var i :| 0 <= i < |ts[1..]| && t == Triangle(x, y, z, ts[1..][i]);
        assert t == Triangle(x, y, z, ts[i + 1]);
      }
      if exists i :: 0 <= i < |ts| && t == Triangle(x, y, z, ts[i]) {
        var i :| 0 <= i < |ts| && t == Triangle(x, y, z, ts[i]);
        if i > 0 {
          assert t == Triangle(x, y, z, ts[1..][i - 1]);
        }
      }
    }
  }

  /** The triangles MarchingCubes emits for cell (x, y, z). */
  function CellTriangles(bases: seq<BaseCase>, rots: seq<Rotation>, inside: (int, int, int) -> bool, x: int, y: int, z: int): seq<Tri>
  {
    Triangles(x, y, z, Lookup(bases, rots, MaskOf(inside, x, y, z)))
  }

  /** The triangles emitted by visiting cells in order, each cell adding emit(cell). */
  function Emitted(emit: ((int, int, int)) -> seq<Tri>, cells: seq<(int, int, int)>): seq<Tri>
  {
    if |cells| == 0 then []
    else Emitted(emit, cells[..|cells| - 1]) + emit(cells[|cells| - 1])
  }

  /** A triangle is emitted exactly when some visited cell emits it. */
  lemma {:induction false} EmittedMembers(emit: ((int, int, int)) -> seq<Tri>, cells: seq<(int, int, int)>, t: Tri)
    ensures t in Emitted(emit, cells) <==> exists i :: 0 <= i < |cells| && t in emit(cells[i])
  {
    if |cells| > 0 {
      var front := cells[..|cells| - 1];
      EmittedMembers(emit, front, t);
      if exists i :: 0 <= i < |front| && t in emit(front[i]) {
        var i :| 0 <= i < |front| && t in emit(front[i]);
        assert front[i] == cells[i];
      }
      if exists i :: 0 <= i < |cells| && t in emit(cells[i]) {
        var i :| 0 <= i < |cells| && t in emit(cells[i]);
        if i < |front| {
          assert front[i] == cells[i];
        }
      }
    }
  }

  /** The mesh after visiting the given cells in order. */
  function MeshOf(bases: seq<BaseCase>, rots: seq<Rotation>, inside: (int, int, int) -> bool, cells: seq<(int, int, int)>): seq<Tri>
  {
    Emitted((c: (int, int, int)) => CellTriangles(bases, rots, inside, c.0, c.1, c.2), cells)
  }

  /** A triangle is in the mesh exactly when some visited cell emits it. */
  lemma MeshMembers(bases: seq<BaseCase>, rots: seq<Rotation>, inside: (int, int, int) -> bool, cells: seq<(int, int, int)>, t: Tri)
    ensures t in MeshOf(bases, rots, inside, cells) <==>
      exists i :: 0 <= i < |cells| && t in CellTriangles(bases, rots, inside, cells[i].0, cells[i].1, cells[i].2)
  {
    EmittedMembers((c: (int, int, int)) => CellTriangles(bases, rots, inside, c.0, c.1, c.2), cells, t);
  }

  /** The mask loop of MarchingCubes for cell (x, y, z), reading the corners
      through the cache. Its three nested loops over (i, j, k) shift a single
      bit along, so the n-th corner visited gets bit n; here n runs over
      0..7 directly and CornerOffset recovers (k, j, i). */
  method CellMask(s: Spacer, inside: (int, int, int) -> bool, c: Cache, x: int, y: int, z: int)
    returns (r: Result<Mask>, c': Cache)
    requires Coherent(s, inside, c) && InCells(s, x, y, z)
    ensures Coherent(s, inside, c') && c'.cachedZ == c.cachedZ
    ensures r.Failure? <==> BadCell(s, inside, x, y, z)
    ensures r.Success? ==> r.value == MaskOf(inside, x, y, z)
  {
    c' := c;
    var acc: Mask := 0;
    ZeroFacts2();
    var n := 0;
    while n < 8
      invariant 0 <= n <= 8
      invariant Coherent(s, inside, c') && c'.cachedZ == c.cachedZ
      invariant forall k: Corner :: k < n ==> !(CornerInside(inside, x, y, z, k) && CornerOnBoundary(s, x, y, z, k))
      invariant forall k: Corner :: Inside(acc, k) <==> k < n && CornerInside(inside, x, y, z, k)
    {
      var (dx, dy, dz) := CornerOffset(n);
      CellCorner(s, x, y, z, n);
      var v;
      v, c' := CornerValue(s, inside, c', x + dx, y + dy, z + dz);
      assert v == CornerInside(inside, x, y, z, n);
      if v {
        if CornerOnBoundary(s, x, y, z, n) {
          return Failure("solid is true outside of bounds"), c';
        }
        forall k: Corner ensures Inside(acc | Bit(n), k) <==> k < n + 1 && CornerInside(inside, x, y, z, k) {
          OrFacts(acc, Bit(n), k);
          BitFacts(n, k);
        }
        acc := acc | Bit(n);
        assert forall k: Corner :: Inside(acc, k) <==> k < n + 1 && CornerInside(inside, x, y, z, k);
      } else {
        assert forall k: Corner :: Inside(acc, k) <==> k < n + 1 && CornerInside(inside, x, y, z, k);
      }
      n := n + 1;
    }
    MaskOfInside(inside, x, y, z);
    MaskExtensionality(acc, MaskOf(inside, x, y, z));
    r := Success(acc);
  }

  /** The corners of a cell are corners of the lattice. */
  lemma CellCorner(s: Spacer, x: int, y: int, z: int, c: Corner)
    requires InCells(s, x, y, z)
    ensures InCorners(s, x + CornerOffset(c).0, y + CornerOffset(c).1, z + CornerOffset(c).2)
  {
  }

  /** Each cell of the lattice sits in the visiting order at its square index. */
  lemma Visited(s: Spacer, cells: seq<(int, int, int)>, x: int, y: int, z: int)
    requires |cells| == Cells(s.nx) * Cells(s.ny) * Cells(s.nz)
    requires forall i :: 0 <= i < |cells| ==> InCells(s, cells[i].0, cells[i].1, cells[i].2)
    requires forall i :: 0 <= i < |cells| ==> SquareIndex(s, cells[i].0, cells[i].1, cells[i].2) == i
    requires InCells(s, x, y, z)
    ensures 0 <= SquareIndex(s, x, y, z) < |cells| && cells[SquareIndex(s, x, y, z)] == (x, y, z)
  {
    SquareIndexRange(s, x, y, z);
    var i := SquareIndex(s, x, y, z);
    SquareIndexInjective(s, x, y, z, cells[i].0, cells[i].1, cells[i].2);
  }

  /** MarchingCubes: fails exactly when the solid holds a corner on the
      lattice's outer layer, and otherwise emits exactly the table's
      triangles of every cell. */
  method MarchingCubes(s: Spacer, inside: (int, int, int) -> bool, bases: seq<BaseCase>) returns (r: Result<seq<Tri>>)
    requires SameCases(bases, BaseTable)
    ensures r.Failure? <==> exists x, y, z :: InCells(s, x, y, z) && BadCell(s, inside, x, y, z)
    ensures r.Success? ==> forall t :: t in r.value <==>
      exists x, y, z :: InCells(s, x, y, z) && t in CellTriangles(bases, Expected, inside, x, y, z)
  {
    var rots := AllRotations();
    var cells := IterateSquares(s);
    var cache := NewCache(s, inside);
    var mesh: seq<Tri> := [];
    var i := 0;
    while i < |cells|
      invariant 0 <= i <= |cells| && Coherent(s, inside, cache)
      invariant NoneBad(s, inside, cells, i)
      invariant mesh == MeshOf(bases, rots, inside, cells[..i])
    {
      var (x, y, z) := cells[i];
      var m;
      m, cache := CellMask(s, inside, cache, x, y, z);
      if m.Failure? {
        assert InCells(s, x, y, z) && BadCell(s, inside, x, y, z);
        return Failure(m.error);
      }
      MeshStep(bases, rots, inside, cells, i);
      mesh := mesh + Triangles(x, y, z, Lookup(bases, rots, m.value));
      i := i + 1;
    }
    assert cells[..i] == cells;
    NoBadCell(s, inside, cells);
    MeshIsCells(s, bases, rots, inside, cells);
    r := Success(mesh);
  }

  /** Visiting one more cell appends its triangles. */
  lemma MeshStep(bases: seq<BaseCase>, rots: seq<Rotation>, inside: (int, int, int) -> bool, cells: seq<(int, int, int)>, i: int)
    requires 0 <= i < |cells|
    ensures MeshOf(bases, rots, inside, cells[..i + 1])
      == MeshOf(bases, rots, inside, cells[..i]) + CellTriangles(bases, rots, inside, cells[i].0, cells[i].1, cells[i].2)
  {
    assert cells[..i + 1][..i] == cells[..i];
    assert cells[..i + 1][i] == cells[i];
  }

  /** None of the first n visited cells is bad. */
  predicate NoneBad(s: Spacer, inside: (int, int, int) -> bool, cells: seq<(int, int, int)>, n: nat)
    requires n <= |cells|
  {
    n == 0 || (NoneBad(s, inside, cells, n - 1) && !BadCell(s, inside, cells[n - 1].0, cells[n - 1].1, cells[n - 1].2))
  }

  lemma {:induction false} NoneBadAt(s: Spacer, inside: (int, int, int) -> bool, cells: seq<(int, int, int)>, n: nat, j: int)
    requires n <= |cells| && NoneBad(s, inside, cells, n) && 0 <= j < n
    ensures !BadCell(s, inside, cells[j].0, cells[j].1, cells[j].2)
    decreases n
  {
    if j < n - 1 {
      NoneBadAt(s, inside, cells, n - 1, j);
    }
  }

  /** When no visited cell is bad, no cell of the lattice is. */
  lemma NoBadCell(s: Spacer, inside: (int, int, int) -> bool, cells: seq<(int, int, int)>)
    requires |cells| == Cells(s.nx) * Cells(s.ny) * Cells(s.nz)
    requires forall i :: 0 <= i < |cells| ==> InCells(s, cells[i].0, cells[i].1, cells[i].2)
    requires forall i :: 0 <= i < |cells| ==> SquareIndex(s, cells[i].0, cells[i].1, cells[i].2) == i
    requires NoneBad(s, inside, cells, |cells|)
    ensures forall x, y, z :: InCells(s, x, y, z) ==> !BadCell(s, inside, x, y, z)
  {
    forall x, y, z | InCells(s, x, y, z)
      ensures !BadCell(s, inside, x, y, z)
    {
      Visited(s, cells, x, y, z);
      NoneBadAt(s, inside, cells, |cells|, SquareIndex(s, x, y, z));
    }
  }

  /** Visiting every cell of the lattice emits exactly the triangles of
      every cell. */
  lemma MeshIsCells(s: Spacer, bases: seq<BaseCase>, rots: seq<Rotation>, inside: (int, int, int) -> bool, cells: seq<(int, int, int)>)
    requires |cells| == Cells(s.nx) * Cells(s.ny) * Cells(s.nz)
    requires forall i :: 0 <= i < |cells| ==> InCells(s, cells[i].0, cells[i].1, cells[i].2)
    requires forall i :: 0 <= i < |cells| ==> SquareIndex(s, cells[i].0, cells[i].1, cells[i].2) == i
    ensures forall t :: t in MeshOf(bases, rots, inside, cells) <==>
      exists x, y, z :: InCells(s, x, y, z) && t in CellTriangles(bases, rots, inside, x, y, z)
  {
    forall t
      ensures t in MeshOf(bases, rots, inside, cells) <==>
        exists x, y, z :: InCells(s, x, y, z) && t in CellTriangles(bases, rots, inside, x, y, z)
    {
      MeshMembers(bases, rots, inside, cells, t);
      if exists x, y, z :: InCells(s, x, y, z) && t in CellTriangles(bases, rots, inside, x, y, z) {
        var x, y, z :| InCells(s, x, y, z) && t in CellTriangles(bases, rots, inside, x, y, z);
        Visited(s, cells, x, y, z);
      }
    }
  }

  /** Every vertex of the mesh lies on an edge of the cell that emitted it,
      and cells whose corners are all outside or all inside emit nothing. */
  lemma CellTrianglesOnEdges(bases: seq<BaseCase>, inside: (int, int, int) -> bool, x: int, y: int, z: int, t: Tri)
    requires SameCases(bases, BaseTable) && t in CellTriangles(bases, Expected, inside, x, y, z)
    ensures OnCellEdge(t.p1, x, y, z) && OnCellEdge(t.p2, x, y, z) && OnCellEdge(t.p3, x, y, z)
  {
    var ts := Lookup(bases, Expected, MaskOf(inside, x, y, z));
    TrianglesMembers(x, y, z, ts, t);
    var i :| 0 <= i < |ts| && t == Triangle(x, y, z, ts[i]);
    LookupOnEdges(bases, MaskOf(inside, x, y, z));
    assert ts[i] in ts;
    TriangleOnEdges(x, y, z, ts[i]);
  }

  /** A cell entirely outside or entirely inside the solid emits no triangle. */
  lemma UniformCellEmpty(bases: seq<BaseCase>, inside: (int, int, int) -> bool, x: int, y: int, z: int)
    requires SameCases(bases, BaseTable)
    requires (forall c: Corner :: !CornerInside(inside, x, y, z, c)) || (forall c: Corner :: CornerInside(inside, x, y, z, c))
    ensures CellTriangles(bases, Expected, inside, x, y, z) == []
  {
    MaskOfInside(inside, x, y, z);
    var m := MaskOf(inside, x, y, z);
    if forall c: Corner :: !CornerInside(inside, x, y, z, c) {
      ZeroFacts2();
      MaskExtensionality(m, 0x00);
      LookupEmpty(bases);
    } else {
      FullFacts2();
      MaskExtensionality(m, 0xff);
      LookupFull(bases);
    }
  }

  lemma FullFacts2()
    ensures forall k: Corner :: Inside(0xff, k)
  {
  }
}
