/** Edge elimination (mesh_ops.go): collapsing a segment to its midpoint,
    the neighbour count that drives it, the check that the collapse would
    not make two triangles coincide, and the EliminateEdges driver.
    Triangles are named by their position in the mesh, which is what a
    *Triangle pointer identifies in the source. */
module MeshElim {
  import opened MeshCore

  /** Segment.Mid. */
  function Mid(s: Seg): Coord
  {
    Coord((s.a.x + s.b.x) / 2.0, (s.a.y + s.b.y) / 2.0, (s.a.z + s.b.z) / 2.0)
  }

  lemma MidIsNew(s: Seg)
    requires s.a != s.b
    ensures !Endpoint(s, Mid(s))
  {
  }

  // ---------------------------------------------------------------------
  // neighborsForSegment
  // ---------------------------------------------------------------------

  /** How many endpoints of seg the triangle holds. */
  function Count(t: Tri, seg: Seg): int
  {
    (if Has(t, seg.a) then 1 else 0) + (if Has(t, seg.b) then 1 else 0)
  }

  /** nb holds every triangle touching the segment, each with the number of
      endpoints it holds, which is 1 or 2. */
  ghost predicate NeighborCounts(m: Mesh, seg: Seg, nb: map<nat, int>)
  {
    (forall k: nat :: k in nb <==> k < |m| && (Has(m[k], seg.a) || Has(m[k], seg.b)))
    && (forall k: nat :: k in nb ==> nb[k] == Count(m[k], seg) && 1 <= nb[k] <= 2)
  }

  /** neighborsForSegment: every triangle in the vertex-to-triangle lists of
      the two endpoints, with the number of lists it appears in. */
  method NeighborsForSegment(m: Mesh, seg: Seg) returns (r: map<nat, int>)
    ensures NeighborCounts(m, seg, r)
  {
    var l1 := VertexTriangles(m, seg.a);
    var l2 := VertexTriangles(m, seg.b);
    r := CountInto(map[], l1);
    r := CountInto(r, l2);
    forall k: nat
      ensures k in r <==> k < |m| && (Has(m[k], seg.a) || Has(m[k], seg.b))
      ensures k in r ==> r[k] == Count(m[k], seg)
    {
      VertexTrianglesMember(m, seg.a, k);
      VertexTrianglesMember(m, seg.b, k);
    }
  }

  lemma VertexTrianglesMember(m: Mesh, p: Coord, k: nat)
    ensures k in VertexTriangles(m, p) <==> k < |m| && Has(m[k], p)
  {
  }

  /** One loop of neighborsForSegment: adds one to the count of every
      entry of l, a list without repeats. */
  method CountInto(r0: map<nat, int>, l: seq<nat>) returns (r: map<nat, int>)
    requires forall j, j' :: 0 <= j < j' < |l| ==> l[j] < l[j']
    ensures forall k: nat :: k in r <==> k in r0 || k in l
    ensures forall k: nat :: k in r ==> r[k] == (if k in r0 then r0[k] else 0) + (if k in l then 1 else 0)
  {
    r := r0;
    var i := 0;
    while i < |l|
      invariant 0 <= i <= |l|
      invariant forall k: nat :: k in r <==> k in r0 || k in l[..i]
      invariant forall k: nat :: k in r ==> r[k] == (if k in r0 then r0[k] else 0) + (if k in l[..i] then 1 else 0)
    {
      assert l[i] !in l[..i];
      r := r[l[i] := (if l[i] in r then r[l[i]] else 0) + 1];
      assert l[..i + 1] == l[..i] + [l[i]];
      i := i + 1;
    }
    assert l[..i] == l;
  }

  // ---------------------------------------------------------------------
  // canEliminateSegment
  // ---------------------------------------------------------------------

  /** The two points of t the check pairs: t[0], t[1], stepping past an
      endpoint of seg found at t[0] (to t[1], t[2]) or at t[1] (to t[0],
      t[2]). */
  function KeptPair(t: Tri, seg: Seg): (Coord, Coord)
  {
    if Endpoint(seg, t.p0) then (t.p1, t.p2)
    else if Endpoint(seg, t.p1) then (t.p0, t.p2)
    else (t.p0, t.p1)
  }

  /** Whether the check passes over t as a triangle that holds the whole
      segment. As written it looks only at the second kept point; the
      corrected check looks at both. */
  predicate Skipped(t: Tri, seg: Seg, corrected: bool)
  {
    Endpoint(seg, KeptPair(t, seg).1) || (corrected && Endpoint(seg, KeptPair(t, seg).0))
  }

  /** The edge of t opposite the endpoint: the edge the collapsed triangle
      keeps. */
  function OtherSeg(t: Tri, seg: Seg): Seg
  {
    NewSegment(KeptPair(t, seg).0, KeptPair(t, seg).1)
  }

  function Sub(p: Coord, q: Coord): Coord
  {
    Coord(p.x - q.x, p.y - q.y, p.z - q.z)
  }

  function Cross(u: Coord, v: Coord): Coord
  {
    Coord(u.y * v.z - u.z * v.y, u.z * v.x - u.x * v.z, u.x * v.y - u.y * v.x)
  }

  function Dot(u: Coord, v: Coord): real
  {
    u.x * v.x + u.y * v.y + u.z * v.z
  }

  /** Triangle.Normal up to its positive length, which the sign of a dot
      product does not see. */
  function Normal(t: Tri): Coord
  {
    Cross(Sub(t.p1, t.p0), Sub(t.p2, t.p0))
  }

  /** Moving t's endpoint along the segment would turn it over: the
      triangles (p1, p2, a) and (p1, p2, b) face opposite ways. */
  predicate Flips(t: Tri, seg: Seg)
  {
    var p := KeptPair(t, seg);
    Dot(Normal(Tri(p.0, p.1, seg.a)), Normal(Tri(p.0, p.1, seg.b))) < 0.0
  }

  predicate InMesh(m: Mesh, ts: seq<nat>)
  {
    forall j :: 0 <= j < |ts| ==> ts[j] < |m|
  }

  /** What one pass of the check's loop body sees of a triangle. */
  datatype Visit = Visit(skipped: bool, other: Seg, flips: bool)

  function VisitOf(t: Tri, seg: Seg, corrected: bool): Visit
  {
    Visit(Skipped(t, seg, corrected), OtherSeg(t, seg), Flips(t, seg))
  }

  /** The visits of the triangles at positions ts, in order. */
  function VisitsOf(m: Mesh, seg: Seg, ts: seq<nat>, corrected: bool): (vs: seq<Visit>)
    requires InMesh(m, ts)
    ensures |vs| == |ts|
    ensures forall j :: 0 <= j < |ts| ==> vs[j] == VisitOf(m[ts[j]], seg, corrected)
    decreases |ts|
  {
    if |ts| == 0 then [] else [VisitOf(m[ts[0]], seg, corrected)] + VisitsOf(m, seg, ts[1..], corrected)
  }

  /** The loop of canEliminateSegment over the visits vs, with the opposite
      edges others collected so far. */
  function Check(vs: seq<Visit>, others: seq<Seg>): bool
    decreases |vs|
  {
    if |vs| == 0 then true
    else if vs[0].skipped then Check(vs[1..], others)
    else if vs[0].other in others || vs[0].flips then false
    else Check(vs[1..], others + [vs[0].other])
  }

  /** What Check accepts: no visit that is not passed over flips or repeats
      an opposite edge already collected, and no two such visits share
      one. */
  predicate Accepts(vs: seq<Visit>, others: seq<Seg>)
  {
    (forall j :: 0 <= j < |vs| && !vs[j].skipped ==> vs[j].other !in others && !vs[j].flips)
    && (forall j, j' :: 0 <= j < j' < |vs| && !vs[j].skipped && !vs[j'].skipped ==> vs[j].other != vs[j'].other)
  }

  lemma {:induction false} CheckAccepts(vs: seq<Visit>, others: seq<Seg>)
    ensures Check(vs, others) <==> Accepts(vs, others)
    decreases |vs|
  {
    if |vs| > 0 {
      var rest := vs[1..];
      assert forall j :: 1 <= j < |vs| ==> vs[j] == rest[j - 1];
      if vs[0].skipped {
        CheckAccepts(rest, others);
      } else {
        CheckAccepts(rest, others + [vs[0].other]);
      }
    }
  }

  /** Meeting the same visit twice refuses the segment. */
  lemma RepeatRefused(vs: seq<Visit>, others: seq<Seg>, j: int, j': int)
    requires 0 <= j < j' < |vs|
    requires !vs[j].skipped && vs[j] == vs[j']
    ensures !Check(vs, others)
  {
    CheckAccepts(vs, others);
  }

  /** A walk that passes over everything accepts. */
  lemma AllSkippedAccepted(vs: seq<Visit>, others: seq<Seg>)
    requires forall j :: 0 <= j < |vs| ==> vs[j].skipped
    ensures Check(vs, others)
  {
    CheckAccepts(vs, others);
  }

  /** The triangles canEliminateSegment walks: those of the first endpoint,
      then those of the second. A triangle holding both appears twice. */
  function Walk(m: Mesh, seg: Seg): (ts: seq<nat>)
    ensures InMesh(m, ts)
  {
    VertexTriangles(m, seg.a) + VertexTriangles(m, seg.b)
  }

  /** canEliminateSegment exactly as written. */
  function CanEliminateAsWritten(m: Mesh, seg: Seg): bool
  {
    Check(VisitsOf(m, seg, Walk(m, seg), false), [])
  }

  /** canEliminateSegment as its comment intends: every triangle that holds
      the whole segment is passed over. */
  function CanEliminate(m: Mesh, seg: Seg): bool
  {
    Check(VisitsOf(m, seg, Walk(m, seg), true), [])
  }

  /** The check the driver runs: as written, or as intended. */
  function Eliminable(m: Mesh, seg: Seg, corrected: bool): bool
  {
    if corrected then CanEliminate(m, seg) else CanEliminateAsWritten(m, seg)
  }

  /** The check as written passes over fewer triangles than the corrected
      one and sees the same visits otherwise, so whatever it accepts the
      corrected check accepts too. */
  lemma AsWrittenImpliesCorrected(m: Mesh, seg: Seg)
    ensures CanEliminateAsWritten(m, seg) ==> CanEliminate(m, seg)
  {
    var ts := Walk(m, seg);
    var vw := VisitsOf(m, seg, ts, false);
    var vc := VisitsOf(m, seg, ts, true);
    CheckAccepts(vw, []);
    CheckAccepts(vc, []);
    assert forall j :: 0 <= j < |ts| ==>
      vc[j].other == vw[j].other && vc[j].flips == vw[j].flips && (vw[j].skipped ==> vc[j].skipped);
  }

  /** A triangle holding both endpoints with t[0], t[1] on the segment and
      t[2] off it is not passed over as written; it is met once from each
      endpoint's list, and the second meeting repeats its opposite edge, so
      the segment is always refused. */
  lemma AsWrittenRefusesLeadingEdge(m: Mesh, seg: Seg, k: nat)
    requires k < |m|
    requires (m[k].p0 == seg.a && m[k].p1 == seg.b) || (m[k].p0 == seg.b && m[k].p1 == seg.a)
    requires !Endpoint(seg, m[k].p2)
    ensures !CanEliminateAsWritten(m, seg)
  {
    var l1 := VertexTriangles(m, seg.a);
    var l2 := VertexTriangles(m, seg.b);
    var ts := Walk(m, seg);
    var vs := VisitsOf(m, seg, ts, false);
    VertexTrianglesMember(m, seg.a, k);
    VertexTrianglesMember(m, seg.b, k);
    var j1 :| 0 <= j1 < |l1| && l1[j1] == k;
    var j2 :| 0 <= j2 < |l2| && l2[j2] == k;
    var j2' := |l1| + j2;
    assert ts[j1] == k && ts[j2'] == k;
    assert !Skipped(m[k], seg, false);
    assert vs[j1] == VisitOf(m[k], seg, false) == vs[j2'];
    RepeatRefused(vs, [], j1, j2');
  }

  /** The corrected check passes over a triangle exactly when it holds both
      endpoints (for a proper triangle, one with three distinct points). */
  lemma SkippedMeansBoth(t: Tri, seg: Seg)
    requires seg.a != seg.b
    requires t.p0 != t.p1 && t.p1 != t.p2 && t.p0 != t.p2
    requires Has(t, seg.a) || Has(t, seg.b)
    ensures Skipped(t, seg, true) <==> Has(t, seg.a) && Has(t, seg.b)
  {
  }

  /** A triangle the corrected check visits: it touches the segment and is
      not passed over. */
  predicate Paired(t: Tri, seg: Seg)
  {
    (Has(t, seg.a) || Has(t, seg.b)) && !Skipped(t, seg, true)
  }

  lemma PairedSingle(t: Tri, seg: Seg)
    requires seg.a != seg.b
    requires Paired(t, seg)
    ensures Count(t, seg) == 1
    ensures !Endpoint(seg, KeptPair(t, seg).0) && !Endpoint(seg, KeptPair(t, seg).1)
  {
  }

  /** No visited triangle flips. */
  predicate NoFlip(m: Mesh, seg: Seg)
  {
    forall k :: 0 <= k < |m| && Paired(m[k], seg) ==> !Flips(m[k], seg)
  }

  /** No two visited triangles keep the same opposite edge: they would
      become the same triangle once the segment collapses. */
  predicate NoTwins(m: Mesh, seg: Seg)
  {
    forall k, k' :: 0 <= k < k' < |m| && Paired(m[k], seg) && Paired(m[k'], seg) ==>
      OtherSeg(m[k], seg) != OtherSeg(m[k'], seg)
  }

  /** What the corrected check decides. */
  lemma CanEliminateMeans(m: Mesh, seg: Seg)
    requires seg.a != seg.b
    ensures CanEliminate(m, seg) <==> NoFlip(m, seg) && NoTwins(m, seg)
  {
    CheckAccepts(VisitsOf(m, seg, Walk(m, seg), true), []);
    if CanEliminate(m, seg) {
      AcceptsSound(m, seg);
    }
    if NoFlip(m, seg) && NoTwins(m, seg) {
      AcceptsComplete(m, seg);
    }
  }

  /** A visit of the walk is one the check does not pass over exactly when
      its triangle is paired. */
  lemma WalkVisits(m: Mesh, seg: Seg)
    ensures var ts := Walk(m, seg);
      var vs := VisitsOf(m, seg, ts, true);
      forall j :: 0 <= j < |ts| ==> (!vs[j].skipped <==> Paired(m[ts[j]], seg))
  {
  }

  lemma AcceptsSound(m: Mesh, seg: Seg)
    requires Accepts(VisitsOf(m, seg, Walk(m, seg), true), [])
    ensures NoFlip(m, seg) && NoTwins(m, seg)
  {
    AcceptsNoFlip(m, seg);
    AcceptsNoTwins(m, seg);
  }

  lemma AcceptsNoFlip(m: Mesh, seg: Seg)
    requires Accepts(VisitsOf(m, seg, Walk(m, seg), true), [])
    ensures NoFlip(m, seg)
  {
    var vs := VisitsOf(m, seg, Walk(m, seg), true);
    forall k | 0 <= k < |m| && Paired(m[k], seg)
      ensures !Flips(m[k], seg)
    {
      var j := WalkPosition(m, seg, k);
      assert vs[j] == VisitOf(m[k], seg, true);
    }
  }

  lemma AcceptsNoTwins(m: Mesh, seg: Seg)
    requires Accepts(VisitsOf(m, seg, Walk(m, seg), true), [])
    ensures NoTwins(m, seg)
  {
    var vs := VisitsOf(m, seg, Walk(m, seg), true);
    forall k, k' | 0 <= k < k' < |m| && Paired(m[k], seg) && Paired(m[k'], seg)
      ensures OtherSeg(m[k], seg) != OtherSeg(m[k'], seg)
    {
      var j := WalkPosition(m, seg, k);
      var j' := WalkPosition(m, seg, k');
      assert vs[j] == VisitOf(m[k], seg, true) && vs[j'] == VisitOf(m[k'], seg, true);
      if j > j' {
        assert vs[j'].other != vs[j].other;
      }
    }
  }

  /** Where the walk meets a paired triangle. */
  lemma WalkPosition(m: Mesh, seg: Seg, k: nat) returns (j: nat)
    requires k < |m| && Paired(m[k], seg)
    ensures j < |Walk(m, seg)| && Walk(m, seg)[j] == k
  {
    WalkFindsPaired(m, seg);
    var ts := Walk(m, seg);
    j :| 0 <= j < |ts| && ts[j] == k;
  }

  lemma AcceptsComplete(m: Mesh, seg: Seg)
    requires seg.a != seg.b
    requires NoFlip(m, seg) && NoTwins(m, seg)
    ensures Accepts(VisitsOf(m, seg, Walk(m, seg), true), [])
  {
    var ts := Walk(m, seg);
    var vs := VisitsOf(m, seg, ts, true);
    WalkVisits(m, seg);
    WalkMeetsPairedOnce(m, seg);
    forall j | 0 <= j < |vs| && !vs[j].skipped
      ensures !vs[j].flips
    {
      assert Paired(m[ts[j]], seg);
    }
    forall j, j' | 0 <= j < j' < |vs| && !vs[j].skipped && !vs[j'].skipped
      ensures vs[j].other != vs[j'].other
    {
      assert Paired(m[ts[j]], seg) && Paired(m[ts[j']], seg);
      if ts[j] > ts[j'] {
        assert OtherSeg(m[ts[j']], seg) != OtherSeg(m[ts[j]], seg);
      }
    }
  }

  /** Every triangle the corrected check visits is somewhere on the walk. */
  lemma WalkFindsPaired(m: Mesh, seg: Seg)
    ensures forall k :: 0 <= k < |m| && Paired(m[k], seg) ==> k in Walk(m, seg)
  {
    forall k | 0 <= k < |m| && Paired(m[k], seg)
      ensures k in Walk(m, seg)
    {
      VertexTrianglesMember(m, seg.a, k);
      VertexTrianglesMember(m, seg.b, k);
    }
  }

  /** ... and it is there only once, as it holds only one endpoint. */
  lemma WalkMeetsPairedOnce(m: Mesh, seg: Seg)
    requires seg.a != seg.b
    ensures var ts := Walk(m, seg);
      forall j, j' :: 0 <= j < j' < |ts| && Paired(m[ts[j]], seg) ==> ts[j] != ts[j']
  {
    var l1 := VertexTriangles(m, seg.a);
    var l2 := VertexTriangles(m, seg.b);
    var ts := Walk(m, seg);
    forall j, j' | 0 <= j < j' < |ts| && Paired(m[ts[j]], seg)
      ensures ts[j] != ts[j']
    {
      PairedSingle(m[ts[j]], seg);
      if j' < |l1| {
        assert ts[j] == l1[j] && ts[j'] == l1[j'];
      } else if j >= |l1| {
        assert ts[j] == l2[j - |l1|] && ts[j'] == l2[j' - |l1|];
      } else {
        assert ts[j] == l1[j] && ts[j'] == l2[j' - |l1|];
      }
    }
  }

  /** The counterexample: two triangles (a, b, c) and (b, a, d) on the
      segment from a to b, the first holding it at positions 0 and 1. As
      written the segment is refused; the corrected check accepts it, as
      nothing but the two triangles that vanish with it touch the
      segment. */
  lemma LeadingEdgeExample(a: Coord, b: Coord, c: Coord, d: Coord)
    requires a != b
    requires c != a && c != b && d != a && d != b
    ensures var m := [Tri(a, b, c), Tri(b, a, d)];
      !CanEliminateAsWritten(m, NewSegment(a, b)) && CanEliminate(m, NewSegment(a, b))
  {
    var m := [Tri(a, b, c), Tri(b, a, d)];
    var seg := NewSegment(a, b);
    AsWrittenRefusesLeadingEdge(m, seg, 0);
    var ts := Walk(m, seg);
    var vs := VisitsOf(m, seg, ts, true);
    assert Skipped(m[0], seg, true) && Skipped(m[1], seg, true);
    forall j | 0 <= j < |vs|
      ensures vs[j].skipped
    {
      assert ts[j] < 2 && vs[j] == VisitOf(m[ts[j]], seg, true);
    }
    AllSkippedAccepted(vs, []);
  }

  // ---------------------------------------------------------------------
  // eliminateSegment
  // ---------------------------------------------------------------------

  /** A neighbour once the segment collapses: each of its points that is an
      endpoint moves to the midpoint. */
  function Collapse(t: Tri, seg: Seg): (r: Tri)
    ensures Count(t, seg) > 0 ==> Has(r, Mid(seg))
    ensures seg.a != seg.b ==> !Has(r, seg.a) && !Has(r, seg.b)
  {
    var mp := Mid(seg);
    Tri(if Endpoint(seg, t.p0) then mp else t.p0,
        if Endpoint(seg, t.p1) then mp else t.p1,
        if Endpoint(seg, t.p2) then mp else t.p2)
  }

  /** A triangle the check pairs collapses onto the midpoint and its
      opposite edge, which is why two paired triangles sharing that edge
      would coincide. */
  lemma CollapsePaired(t: Tri, seg: Seg)
    requires seg.a != seg.b
    requires Paired(t, seg)
    ensures var r, o := Collapse(t, seg), OtherSeg(t, seg);
      Has(r, Mid(seg)) && Has(r, o.a) && Has(r, o.b)
      && forall i :: 0 <= i < 3 ==> At(r, i) in {Mid(seg), o.a, o.b}
  {
  }

  /** The mesh after eliminateSegment: neighbours holding both endpoints are
      removed, those holding one are collapsed, the others stay as they
      were, in their order. */
  function Eliminated(m: Mesh, seg: Seg, nb: map<nat, int>): (r: Mesh)
    ensures |r| <= |m|
    decreases |m|
  {
    if |m| == 0 then []
    else
      var k := |m| - 1;
      var front := Eliminated(m[..k], seg, nb);
      if k !in nb then front + [m[k]]
      else if nb[k] == 1 then front + [Collapse(m[k], seg)]
      else front
  }

  /** Every triangle of the result comes from one of the mesh: untouched if
      it is no neighbour, collapsed if it is counted once; and every such
      triangle is there. */
  lemma {:induction false} EliminatedMembers(m: Mesh, seg: Seg, nb: map<nat, int>, t: Tri)
    ensures t in Eliminated(m, seg, nb) <==>
      exists k :: 0 <= k < |m| && ((k !in nb && t == m[k]) || (k in nb && nb[k] == 1 && t == Collapse(m[k], seg)))
    decreases |m|
  {
    if |m| > 0 {
      var k := |m| - 1;
      EliminatedMembers(m[..k], seg, nb, t);
      assert forall j :: 0 <= j < k ==> m[..k][j] == m[j];
    }
  }

  /** Removing a neighbour counted twice strictly shrinks the mesh. */
  lemma {:induction false} EliminatedShrinks(m: Mesh, seg: Seg, nb: map<nat, int>, k: nat)
    requires k < |m| && k in nb && nb[k] != 1
    ensures |Eliminated(m, seg, nb)| < |m|
    decreases |m|
  {
    var last := |m| - 1;
    if k < last {
      EliminatedShrinks(m[..last], seg, nb, k);
    }
  }

  /** With every neighbour counted once, no triangle is lost. */
  lemma {:induction false} EliminatedKeepsAll(m: Mesh, seg: Seg, nb: map<nat, int>)
    requires forall k: nat :: k < |m| && k in nb ==> nb[k] == 1
    ensures |Eliminated(m, seg, nb)| == |m|
    decreases |m|
  {
    if |m| > 0 {
      EliminatedKeepsAll(m[..|m| - 1], seg, nb);
    }
  }

  /** eliminateSegment, with the neighbours counted by neighborsForSegment,
      strictly shrinks the mesh when some triangle holds the whole
      segment. */
  lemma EliminateShrinks(m: Mesh, seg: Seg, nb: map<nat, int>, k: nat)
    requires NeighborCounts(m, seg, nb)
    requires seg.a != seg.b
    requires k < |m| && Has(m[k], seg.a) && Has(m[k], seg.b)
    ensures |Eliminated(m, seg, nb)| < |m|
  {
    assert k in nb && nb[k] == 2;
    EliminatedShrinks(m, seg, nb, k);
  }

  /** eliminateSegment removes the segments of a neighbour that touch an
      endpoint of the eliminated one. */
  predicate Touches(s: Seg, seg: Seg)
  {
    Endpoint(seg, s.a) || Endpoint(seg, s.b)
  }

  lemma SegmentsOfTriangle(t: Tri, s: Seg)
    requires s in Segments(t)
    ensures Has(t, s.a) && Has(t, s.b)
  {
  }

  /** Position i is the only one of t holding an endpoint. */
  predicate OnlyEndpointAt(t: Tri, seg: Seg, i: int)
    requires 0 <= i < 3
  {
    Endpoint(seg, At(t, i)) && !Endpoint(seg, At(t, (i + 1) % 3)) && !Endpoint(seg, At(t, (i + 2) % 3))
  }

  /** The inner loop of eliminateSegment for a neighbour counted once: in
      place, each point that is an endpoint moves to the midpoint, and the
      two segments from the midpoint to the other two points, as they are
      at that moment, are handed back. */
  method CollapseNeighbor(t: Tri, seg: Seg) returns (r: Tri, added: seq<Seg>)
    ensures r == Collapse(t, seg)
    ensures forall j :: 0 <= j < |added| ==> Endpoint(added[j], Mid(seg))
    ensures Count(t, seg) > 0 ==> |added| > 0
    ensures forall i :: 0 <= i < 3 && OnlyEndpointAt(t, seg, i) ==>
      added == [NewSegment(Mid(seg), At(r, (i + 1) % 3)), NewSegment(Mid(seg), At(r, (i + 2) % 3))]
  {
    r, added := t, [];
    r, added := CollapseAt(r, added, seg, 0);
    r, added := CollapseAt(r, added, seg, 1);
    r, added := CollapseAt(r, added, seg, 2);
    assert Count(t, seg) > 0 ==> Endpoint(seg, t.p0) || Endpoint(seg, t.p1) || Endpoint(seg, t.p2);
  }

  /** One pass of that loop, at position i. */
  method CollapseAt(t: Tri, added: seq<Seg>, seg: Seg, i: int) returns (r: Tri, added': seq<Seg>)
    requires 0 <= i < 3
    ensures !Endpoint(seg, At(t, i)) ==> r == t && added' == added
    ensures Endpoint(seg, At(t, i)) ==> r == SetAt(t, i, Mid(seg))
    ensures Endpoint(seg, At(t, i)) ==>
      added' == added + [NewSegment(Mid(seg), At(r, (i + 1) % 3)), NewSegment(Mid(seg), At(r, (i + 2) % 3))]
  {
    r, added' := t, added;
    if Endpoint(seg, At(t, i)) {
      r := SetAt(t, i, Mid(seg));
      added' := added + [NewSegment(Mid(seg), At(r, (i + 1) % 3)), NewSegment(Mid(seg), At(r, (i + 2) % 3))];
    }
  }

  function SetAt(t: Tri, i: int, p: Coord): (r: Tri)
    requires 0 <= i < 3
    ensures At(r, i) == p
    ensures forall i' :: 0 <= i' < 3 && i' != i ==> At(r, i') == At(t, i')
  {
    if i == 0 then t.(p0 := p) else if i == 1 then t.(p1 := p) else t.(p2 := p)
  }

  /** eliminateSegment. The neighbours are taken in the order given (a Go
      map's order); the mesh it leaves does not depend on it. remaining is
      the set of segments still to try, segments the list being walked. */
  method EliminateSegment(m: Mesh, seg: Seg, nb: map<nat, int>, order: seq<nat>,
                          remaining: set<Seg>, segments: seq<Seg>)
    returns (m': Mesh, remaining': set<Seg>, segments': seq<Seg>)
    requires forall k :: k in nb <==> k in order
    requires forall j :: 0 <= j < |order| ==> order[j] < |m|
    ensures m' == Eliminated(m, seg, nb)
    ensures |segments| <= |segments'| && segments'[..|segments|] == segments
    ensures forall j :: |segments| <= j < |segments'| ==> Endpoint(segments'[j], Mid(seg))
    ensures forall s :: s in remaining && !Touches(s, seg) ==> s in remaining'
    ensures forall s :: s in remaining' ==> s in remaining || s in segments'[|segments|..]
    ensures forall s :: s in remaining && s !in remaining' ==>
      Touches(s, seg) && exists k :: k in nb && s in Segments(m[k])
    ensures (forall k :: k in nb ==> !Has(m[k], Mid(seg))) ==>
      forall j :: |segments| <= j < |segments'| ==> segments'[j] in remaining'
  {
    m' := Eliminated(m, seg, nb);
    remaining' := remaining;
    segments' := segments;
    var i := 0;
    while i < |order|
      invariant 0 <= i <= |order|
      invariant |segments| <= |segments'| && segments'[..|segments|] == segments
      invariant forall j :: |segments| <= j < |segments'| ==> Endpoint(segments'[j], Mid(seg))
      invariant forall s :: s in remaining && !Touches(s, seg) ==> s in remaining'
      invariant forall s :: s in remaining' ==> s in remaining || s in segments'[|segments|..]
      invariant forall s :: s in remaining && s !in remaining' ==>
        Touches(s, seg) && exists k :: k in nb && s in Segments(m[k])
      invariant (forall k :: k in nb ==> !Has(m[k], Mid(seg))) ==>
        forall j :: |segments| <= j < |segments'| ==> segments'[j] in remaining'
    {
      var k := order[i];
      var t := m[k];
      var gone := set s | s in Segments(t) && Touches(s, seg);
      remaining' := remaining' - gone;
      if k in nb && nb[k] == 1 {
        var _, added := CollapseNeighbor(t, seg);
        remaining' := remaining' + set s | s in added;
        assert (segments' + added)[|segments|..] == segments'[|segments|..] + added;
        segments' := segments' + added;
      }
      i := i + 1;
    }
  }

  // ---------------------------------------------------------------------
  // EliminateEdges
  // ---------------------------------------------------------------------

  /** Every segment of every triangle of m. */
  function MeshSegments(m: Mesh): set<Seg>
  {
    set k, j | 0 <= k < |m| && 0 <= j < 3 :: Segments(m[k])[j]
  }

  /** No segment of m can go: the check or f refuses each one. */
  ghost predicate Stuck(m: Mesh, f: (Mesh, Seg) -> bool, corrected: bool)
  {
    forall s :: s in MeshSegments(m) ==> !Eliminable(m, s, corrected) || !f(m, s)
  }

  /** b is a after one elimination the driver may make: a segment that
      passes the check and f collapses, with its neighbour counts. */
  ghost predicate EliminationStep(a: Mesh, b: Mesh, f: (Mesh, Seg) -> bool, corrected: bool)
  {
    exists s, nb :: Eliminable(a, s, corrected) && f(a, s) && NeighborCounts(a, s, nb) && b == Eliminated(a, s, nb)
  }

  /** Step i of trace is an elimination step. */
  ghost predicate TraceStep(trace: seq<Mesh>, i: int, f: (Mesh, Seg) -> bool, corrected: bool)
  {
    0 <= i < |trace| - 1 && EliminationStep(trace[i], trace[i + 1], f, corrected)
  }

  /** trace runs from a to b through elimination steps. */
  ghost predicate Traced(trace: seq<Mesh>, a: Mesh, b: Mesh, f: (Mesh, Seg) -> bool, corrected: bool)
  {
    && |trace| >= 1 && trace[0] == a && trace[|trace| - 1] == b
    && (forall i :: 0 <= i < |trace| - 1 ==> TraceStep(trace, i, f, corrected))
  }

  /** A mesh the corrected check leaves alone the check as written leaves
      alone too. */
  lemma StuckAsWritten(m: Mesh, f: (Mesh, Seg) -> bool)
    requires Stuck(m, f, true)
    ensures Stuck(m, f, false)
  {
    forall s | s in MeshSegments(m)
      ensures !CanEliminateAsWritten(m, s) || !f(m, s)
    {
      AsWrittenImpliesCorrected(m, s);
    }
  }

  /** EliminateEdges: rounds over a snapshot of the remaining segments,
      collapsing each one that is still remaining, passes the check and is
      approved by f, until a round changes nothing. The source loops until
      then; here at most fuel segment visits are made. With corrected
      false the check is canEliminateSegment as written, which is what the
      source runs; with corrected true it is the intended check. */
  method EliminateEdges(m: Mesh, f: (Mesh, Seg) -> bool, fuel: nat, corrected: bool)
    returns (r: Mesh, ghost trace: seq<Mesh>)
    ensures |r| <= |m|
    ensures Stuck(m, f, corrected) ==> r == m
    ensures Traced(trace, m, r, f, corrected)
  {
    r := m;
    trace := [m];
    var remaining := MeshSegments(m);
    var changed := true;
    var steps := fuel;
    ghost var untouched := true;
    var r' := r;
    while changed && remaining != {} && steps > 0
      invariant |r| <= |m|
      invariant untouched ==> r == m && remaining <= MeshSegments(m)
      invariant !untouched ==> !Stuck(m, f, corrected)
      invariant Traced(trace, m, r, f, corrected)
      decreases steps
    {
      changed := false;
      steps := steps - 1;
      var segments := Enumerate(remaining);
      var i := 0;
      while i < |segments| && steps > 0
        invariant |r| <= |m|
        invariant untouched ==> r == m && remaining <= MeshSegments(m)
        invariant !untouched ==> !Stuck(m, f, corrected)
        invariant Traced(trace, m, r, f, corrected)
        decreases steps
      {
        var segment := segments[i];
        steps := steps - 1;
        var done;
        r', remaining, segments, done := TrySegment(r, f, segment, remaining, segments, corrected);
        if done {
          if untouched {
            NotStuck(m, f, segment, corrected);
          }
          untouched := false;
          changed := true;
          TraceExtend(trace, m, r, r', f, corrected);
          trace := trace + [r'];
        }
        r := r';
        i := i + 1;
      }
    }
  }

  /** One visit of the driver's inner loop: the segment is collapsed when
      it is still remaining, the check passes and f approves. */
  method TrySegment(r: Mesh, f: (Mesh, Seg) -> bool, segment: Seg, remaining: set<Seg>, segments: seq<Seg>,
                    corrected: bool)
    returns (r': Mesh, remaining': set<Seg>, segments': seq<Seg>, done: bool)
    ensures done <==> segment in remaining && Eliminable(r, segment, corrected) && f(r, segment)
    ensures done ==> exists nb :: NeighborCounts(r, segment, nb) && r' == Eliminated(r, segment, nb)
    ensures done ==> EliminationStep(r, r', f, corrected)
    ensures !done ==> r' == r && remaining' == remaining && segments' == segments
    ensures |r'| <= |r|
  {
    r', remaining', segments', done := r, remaining, segments, false;
    if segment in remaining && Eliminable(r, segment, corrected) && f(r, segment) {
      var nb := NeighborsForSegment(r, segment);
      var order := Enumerate(nb.Keys);
      forall j | 0 <= j < |order|
        ensures order[j] in nb && order[j] < |r|
      {
        assert order[j] in nb.Keys;
      }
      r', remaining', segments' := EliminateSegment(r, segment, nb, order, remaining, segments);
      done := true;
    }
  }

  /** A trace extended by one elimination step. */
  lemma TraceExtend(trace: seq<Mesh>, a: Mesh, b: Mesh, c: Mesh, f: (Mesh, Seg) -> bool, corrected: bool)
    requires Traced(trace, a, b, f, corrected) && EliminationStep(b, c, f, corrected)
    ensures Traced(trace + [c], a, c, f, corrected)
  {
    var t := trace + [c];
    forall i | 0 <= i < |t| - 1
      ensures TraceStep(t, i, f, corrected)
    {
      if i < |trace| - 1 {
        assert TraceStep(trace, i, f, corrected);
        assert t[i] == trace[i] && t[i + 1] == trace[i + 1];
      } else {
        assert t[i] == b && t[i + 1] == c;
      }
    }
  }

  /** A segment of m the driver may eliminate shows m was not stuck. */
  lemma NotStuck(m: Mesh, f: (Mesh, Seg) -> bool, s: Seg, corrected: bool)
    requires s in MeshSegments(m) && Eliminable(m, s, corrected) && f(m, s)
    ensures !Stuck(m, f, corrected)
  {
  }

  /** A tetrahedron on four distinct points, as in the source's minimal
      elimination test. */
  function Tetrahedron(o: Coord, x: Coord, y: Coord, z: Coord): Mesh
  {
    [Tri(z, x, y), Tri(o, x, y), Tri(o, z, y), Tri(o, x, z)]
  }

  /** A face with the points u, w, x, on a segment from u to a fourth point
      v, is paired and keeps the edge from w to x. */
  lemma FaceAwayFrom(t: Tri, u: Coord, v: Coord, w: Coord, x: Coord)
    requires u != v && u != w && u != x && v != w && v != x && w != x
    requires Has(t, u) && Has(t, w) && Has(t, x)
    requires t.p0 in {u, w, x} && t.p1 in {u, w, x} && t.p2 in {u, w, x}
    ensures Paired(t, NewSegment(u, v)) && OtherSeg(t, NewSegment(u, v)) == NewSegment(w, x)
  {
    var seg := NewSegment(u, v);
    SkippedMeansBoth(t, seg);
    NewSegmentEqual(w, x, KeptPair(t, seg).0, KeptPair(t, seg).1);
  }

  /** Two faces that meet the segment from u to v only at one endpoint each
      and otherwise share the points w and x make the check refuse the
      segment: collapsing it would lay one onto the other. */
  lemma OppositeFacesRefused(m: Mesh, k: nat, k': nat, u: Coord, v: Coord, w: Coord, x: Coord)
    requires u != v && u != w && u != x && v != w && v != x && w != x
    requires k < |m| && k' < |m| && k != k'
    requires Has(m[k], u) && Has(m[k], w) && Has(m[k], x)
    requires m[k].p0 in {u, w, x} && m[k].p1 in {u, w, x} && m[k].p2 in {u, w, x}
    requires Has(m[k'], v) && Has(m[k'], w) && Has(m[k'], x)
    requires m[k'].p0 in {v, w, x} && m[k'].p1 in {v, w, x} && m[k'].p2 in {v, w, x}
    ensures !CanEliminate(m, NewSegment(u, v))
  {
    var seg := NewSegment(u, v);
    FaceAwayFrom(m[k], u, v, w, x);
    FaceAwayFrom(m[k'], v, u, w, x);
    NewSegmentSymmetric(u, v);
    if k < k' {
      TwinsRefused(m, seg, k, k');
    } else {
      TwinsRefused(m, seg, k', k);
    }
  }

  /** Two triangles, each holding one endpoint, that keep the same opposite
      edge make the check refuse the segment. */
  lemma TwinsRefused(m: Mesh, seg: Seg, k: nat, k': nat)
    requires seg.a != seg.b
    requires k < k' < |m| && Paired(m[k], seg) && Paired(m[k'], seg)
    requires OtherSeg(m[k], seg) == OtherSeg(m[k'], seg)
    ensures !CanEliminate(m, seg)
  {
    CanEliminateMeans(m, seg);
  }

  /** No segment of a tetrahedron can be eliminated, by either check: the
      two faces away from an edge share the opposite edge. So
      EliminateEdges, whatever f approves, gives back all four triangles. */
  lemma TetrahedronRigid(o: Coord, x: Coord, y: Coord, z: Coord, f: (Mesh, Seg) -> bool)
    requires o != x && o != y && o != z && x != y && x != z && y != z
    ensures forall s :: s in MeshSegments(Tetrahedron(o, x, y, z)) ==> !CanEliminate(Tetrahedron(o, x, y, z), s)
    ensures forall s :: s in MeshSegments(Tetrahedron(o, x, y, z)) ==> !CanEliminateAsWritten(Tetrahedron(o, x, y, z), s)
    ensures Stuck(Tetrahedron(o, x, y, z), f, true) && Stuck(Tetrahedron(o, x, y, z), f, false)
  {
    var m := Tetrahedron(o, x, y, z);
    // Faces 0, 1, 2, 3 leave out o, z, x, y respectively.
    forall s | s in MeshSegments(m)
      ensures !CanEliminate(m, s)
    {
      var k, j :| 0 <= k < 4 && 0 <= j < 3 && s == Segments(m[k])[j];
      if k == 0 {
        if j == 0 { OppositeFacesRefused(m, 2, 1, z, x, o, y); }
        else if j == 1 { OppositeFacesRefused(m, 3, 2, x, y, o, z); }
        else { OppositeFacesRefused(m, 1, 3, y, z, o, x); }
      } else if k == 1 {
        if j == 0 { OppositeFacesRefused(m, 2, 0, o, x, y, z); }
        else if j == 1 { OppositeFacesRefused(m, 3, 2, x, y, o, z); }
        else { OppositeFacesRefused(m, 0, 3, y, o, x, z); }
      } else if k == 2 {
        if j == 0 { OppositeFacesRefused(m, 1, 0, o, z, x, y); }
        else if j == 1 { OppositeFacesRefused(m, 3, 1, z, y, o, x); }
        else { OppositeFacesRefused(m, 0, 3, y, o, x, z); }
      } else {
        if j == 0 { OppositeFacesRefused(m, 2, 0, o, x, y, z); }
        else if j == 1 { OppositeFacesRefused(m, 1, 2, x, z, o, y); }
        else { OppositeFacesRefused(m, 0, 1, z, o, x, y); }
      }
    }
    forall s | s in MeshSegments(m)
      ensures !CanEliminateAsWritten(m, s)
    {
      AsWrittenImpliesCorrected(m, s);
    }
    assert Stuck(m, f, true);
    StuckAsWritten(m, f);
  }

  /** A strictly increasing list holding exactly two values has length 2. */
  lemma TwoOf(r: seq<nat>, k: nat, k': nat)
    requires forall j, j' :: 0 <= j < j' < |r| ==> r[j] < r[j']
    requires forall v :: v in r <==> v == k || v == k'
    requires k != k'
    ensures |r| == 2
  {
    assert k in r && k' in r;
    var i :| 0 <= i < |r| && r[i] == k;
    var i' :| 0 <= i' < |r| && r[i'] == k';
    assert i != i';
    if |r| >= 3 {
      ThreeValues(r);
    }
  }

  lemma ThreeValues(r: seq<nat>)
    requires forall j, j' :: 0 <= j < j' < |r| ==> r[j] < r[j']
    requires |r| >= 3
    ensures r[0] < r[1] < r[2] && r[0] in r && r[1] in r && r[2] in r
  {
  }

  /** An edge lying on exactly the faces k and k'. */
  lemma EdgeOnTwo(m: Mesh, p: Coord, q: Coord, k: nat, k': nat)
    requires k < |m| && k' < |m| && k != k'
    requires forall i :: 0 <= i < |m| ==> (Has(m[i], p) && Has(m[i], q) <==> i == k || i == k')
    ensures |Find(m, p, q)| == 2
  {
    TwoOf(Find(m, p, q), k, k');
  }

  /** The tetrahedron is closed: every edge lies on exactly two faces, so it
      needs no repair. */
  lemma TetrahedronManifold(o: Coord, x: Coord, y: Coord, z: Coord)
    requires o != x && o != y && o != z && x != y && x != z && y != z
    ensures Manifold(Tetrahedron(o, x, y, z))
  {
    var m := Tetrahedron(o, x, y, z);
    forall k | 0 <= k < 4
      ensures forall i :: 0 <= i < 3 ==> EdgeShared(m, m[k], i)
    {
      TetrahedronFace(o, x, y, z, k);
    }
  }

  /** Each edge of face k lies on exactly two faces. */
  lemma TetrahedronFace(o: Coord, x: Coord, y: Coord, z: Coord, k: int)
    requires o != x && o != y && o != z && x != y && x != z && y != z
    requires 0 <= k < 4
    ensures var m := Tetrahedron(o, x, y, z);
      EdgeShared(m, m[k], 0) && EdgeShared(m, m[k], 1) && EdgeShared(m, m[k], 2)
  {
    var m := Tetrahedron(o, x, y, z);
    EdgesThroughX(o, x, y, z);
    EdgesAwayFromX(o, x, y, z);
    var t := m[k];
    assert (0 + 1) % 3 == 1 && (1 + 1) % 3 == 2 && (2 + 1) % 3 == 0;
    assert At(t, 0) == t.p0 && At(t, 1) == t.p1 && At(t, 2) == t.p2;
    if k == 0 {
      assert t == Tri(z, x, y);
    } else if k == 1 {
      assert t == Tri(o, x, y);
    } else if k == 2 {
      assert t == Tri(o, z, y);
    } else {
      assert t == Tri(o, x, z);
    }
  }

  /** The three tetrahedron edges through x each lie on two faces. */
  lemma EdgesThroughX(o: Coord, x: Coord, y: Coord, z: Coord)
    requires o != x && o != y && o != z && x != y && x != z && y != z
    ensures var m := Tetrahedron(o, x, y, z);
      |Find(m, z, x)| == 2 && |Find(m, x, z)| == 2 && |Find(m, x, y)| == 2 && |Find(m, o, x)| == 2
  {
    var m := Tetrahedron(o, x, y, z);
    EdgeOnTwo(m, z, x, 0, 3);
    FindSymmetric(m, z, x);
    EdgeOnTwo(m, x, y, 0, 1);
    EdgeOnTwo(m, o, x, 1, 3);
  }

  /** The three tetrahedron edges away from x each lie on two faces. */
  lemma EdgesAwayFromX(o: Coord, x: Coord, y: Coord, z: Coord)
    requires o != x && o != y && o != z && x != y && x != z && y != z
    ensures var m := Tetrahedron(o, x, y, z);
      |Find(m, y, z)| == 2 && |Find(m, z, y)| == 2 && |Find(m, y, o)| == 2
      && |Find(m, o, z)| == 2 && |Find(m, z, o)| == 2
  {
    var m := Tetrahedron(o, x, y, z);
    EdgeOnTwo(m, y, z, 0, 2);
    FindSymmetric(m, y, z);
    EdgeOnTwo(m, y, o, 1, 2);
    EdgeOnTwo(m, o, z, 2, 3);
    FindSymmetric(m, o, z);
  }

  /** The triangles holding both p and q do not depend on their order. */
  lemma {:induction false} FindSymmetric(m: Mesh, p: Coord, q: Coord)
    ensures Find(m, p, q) == Find(m, q, p)
    decreases |m|
  {
    if |m| > 0 {
      FindSymmetric(m[..|m| - 1], p, q);
    }
  }
}
