/** The mesh vocabulary the operations of mesh_ops.go work on. The Mesh type
    itself (mesh.go) is not part of this model; what the operations need
    from it is stated here: a mesh is the sequence of its triangles in
    iteration order (two equal triangles are still two triangles, as two
    pointers are), Find(p, q) lists the triangles holding both points, the
    vertex-to-triangle index lists the triangles holding a point, and
    NewSegment orders its two points canonically. Coordinates are exact
    reals; float rounding is not modelled. */
module MeshCore {

  datatype Coord = Coord(x: real, y: real, z: real)

  /** Triangle, an array of three coordinates. */
  datatype Tri = Tri(p0: Coord, p1: Coord, p2: Coord)

  /** Segment, a pair of coordinates in canonical order. */
  datatype Seg = Seg(a: Coord, b: Coord)

  type Mesh = seq<Tri>

  /** t[i] of the three-element array. */
  function At(t: Tri, i: int): Coord
    requires 0 <= i < 3
  {
    if i == 0 then t.p0 else if i == 1 then t.p1 else t.p2
  }

  predicate Has(t: Tri, p: Coord)
  {
    t.p0 == p || t.p1 == p || t.p2 == p
  }

  /** The lexicographic order NewSegment sorts by. */
  predicate Less(p: Coord, q: Coord)
  {
    p.x < q.x || (p.x == q.x && (p.y < q.y || (p.y == q.y && p.z < q.z)))
  }

  function NewSegment(p: Coord, q: Coord): (s: Seg)
    ensures (s.a == p && s.b == q) || (s.a == q && s.b == p)
  {
    if Less(q, p) then Seg(q, p) else Seg(p, q)
  }

  /** A segment names its two points, whatever order they are given in. */
  lemma NewSegmentSymmetric(p: Coord, q: Coord)
    ensures NewSegment(p, q) == NewSegment(q, p)
  {
  }

  /** Two segments from NewSegment are equal exactly when they join the
      same two points. */
  lemma NewSegmentEqual(p: Coord, q: Coord, p': Coord, q': Coord)
    ensures NewSegment(p, q) == NewSegment(p', q') <==> (p == p' && q == q') || (p == q' && q == p')
  {
  }

  predicate Endpoint(s: Seg, p: Coord)
  {
    p == s.a || p == s.b
  }

  /** Triangle.Segments: the three edges, each from t[i] to t[(i+1)%3]. */
  function Segments(t: Tri): seq<Seg>
  {
    [NewSegment(t.p0, t.p1), NewSegment(t.p1, t.p2), NewSegment(t.p2, t.p0)]
  }

  /** The positions of the triangles holding p, in iteration order: the
      vertex-to-triangle index entry of p. */
  function VertexTriangles(m: Mesh, p: Coord): (r: seq<nat>)
    ensures forall k :: 0 <= k < |r| ==> r[k] < |m| && Has(m[r[k]], p)
    ensures forall i :: 0 <= i < |m| && Has(m[i], p) ==> i in r
    ensures forall j, k :: 0 <= j < k < |r| ==> r[j] < r[k]
    decreases |m|
  {
    if |m| == 0 then []
    else
      var front := VertexTriangles(m[..|m| - 1], p);
      if Has(m[|m| - 1], p) then front + [|m| - 1] else front
  }

  /** Mesh.Find(p, q): the positions of the triangles holding both points. */
  function Find(m: Mesh, p: Coord, q: Coord): (r: seq<nat>)
    ensures forall k :: 0 <= k < |r| ==> r[k] < |m| && Has(m[r[k]], p) && Has(m[r[k]], q)
    ensures forall i :: 0 <= i < |m| && Has(m[i], p) && Has(m[i], q) ==> i in r
    ensures forall j, k :: 0 <= j < k < |r| ==> r[j] < r[k]
    decreases |m|
  {
    if |m| == 0 then []
    else
      var front := Find(m[..|m| - 1], p, q);
      if Has(m[|m| - 1], p) && Has(m[|m| - 1], q) then front + [|m| - 1] else front
  }

  /** Edge i of t, from t[i] to t[(i+1)%3], lies on exactly two triangles. */
  predicate EdgeShared(m: Mesh, t: Tri, i: int)
    requires 0 <= i < 3
  {
    |Find(m, At(t, i), At(t, (i + 1) % 3))| == 2
  }

  /** Every edge of every triangle is shared by exactly two triangles. */
  predicate Manifold(m: Mesh)
  {
    forall k, i :: 0 <= k < |m| && 0 <= i < 3 ==> EdgeShared(m, m[k], i)
  }

  /** NeedsRepair: true as soon as some edge of some triangle is not shared
      by exactly two triangles. */
  method NeedsRepair(m: Mesh) returns (r: bool)
    ensures r <==> !Manifold(m)
  {
    var k := 0;
    while k < |m|
      invariant 0 <= k <= |m|
      invariant forall k', i :: 0 <= k' < k && 0 <= i < 3 ==> EdgeShared(m, m[k'], i)
    {
      var t := m[k];
      var i := 0;
      while i < 3
        invariant 0 <= i <= 3
        invariant forall i' :: 0 <= i' < i ==> EdgeShared(m, t, i')
      {
        var p1 := At(t, i);
        var p2 := At(t, (i + 1) % 3);
        if |Find(m, p1, p2)| != 2 {
          assert !EdgeShared(m, m[k], i);
          return true;
        }
        i := i + 1;
      }
      k := k + 1;
    }
    return false;
  }

  /** Enumerates a set in an arbitrary order: how a Go map's keys come out
      of a range loop. Callers may rely on nothing but membership and the
      absence of repeats. */
  method Enumerate<T(==)>(s: set<T>) returns (q: seq<T>)
    ensures forall x :: x in q <==> x in s
    ensures forall i, j :: 0 <= i < j < |q| ==> q[i] != q[j]
  {
    q := [];
    var rest := s;
    while rest != {}
      invariant rest <= s
      invariant forall x :: x in q <==> x in s && x !in rest
      invariant forall i, j :: 0 <= i < j < |q| ==> q[i] != q[j]
      decreases |rest|
    {
      var x :| x in rest;
      q := q + [x];
      rest := rest - {x};
    }
  }
}
