/** MeshToHierarchy of model2d/mesh_hierarchy.go: strip closed loops off
    a 2D mesh one at a time, starting from the remaining vertex lowest
    along a fixed axis, and place each loop in the hierarchy.

    The pointer mesh of ptr_mesh.go is not part of this model. It is
    modelled as the mesh's directed segments, which stay fixed, together
    with the list of vertices not yet stripped; Outgoing and Incoming list
    the segments leaving and entering a vertex, and RemoveFromList drops a
    vertex from the list. Mesh.Manifold (mesh.go, not part of this model)
    is taken to mean that every vertex has exactly one outgoing and one
    incoming segment. */
module HierarchyBuild {
  import opened Wrappers
  import opened Collisions
  import opened Hierarchy

  /** The ends of the segments leaving c, in mesh order. */
  function Outgoing(ms: seq<Segment>, c: Coord2): seq<Coord2>
  {
    if |ms| == 0 then []
    else (if ms[0].a == c then [ms[0].b] else []) + Outgoing(ms[1..], c)
  }

  /** The starts of the segments entering c, in mesh order. */
  function Incoming(ms: seq<Segment>, c: Coord2): seq<Coord2>
  {
    if |ms| == 0 then []
    else (if ms[0].b == c then [ms[0].a] else []) + Incoming(ms[1..], c)
  }

  lemma {:induction false} OutgoingMeans(ms: seq<Segment>, c: Coord2, x: Coord2)
    ensures x in Outgoing(ms, c) <==> Segment(c, x) in ms
    decreases |ms|
  {
    if |ms| > 0 {
      OutgoingMeans(ms[1..], c, x);
      assert ms == [ms[0]] + ms[1..];
    }
  }

  lemma {:induction false} IncomingMeans(ms: seq<Segment>, c: Coord2, x: Coord2)
    ensures x in Incoming(ms, c) <==> Segment(x, c) in ms
    decreases |ms|
  {
    if |ms| > 0 {
      IncomingMeans(ms[1..], c, x);
      assert ms == [ms[0]] + ms[1..];
    }
  }

  /** The vertex passes removeAllConnected's manifold check. */
  predicate Good(ms: seq<Segment>, v: Coord2)
  {
    |Outgoing(ms, v)| == 1 && |Incoming(ms, v)| == 1
  }

  /** Mesh.Manifold: every vertex passes the check. */
  predicate Manifold(ms: seq<Segment>)
  {
    forall i :: 0 <= i < |ms| ==> Good(ms, ms[i].a) && Good(ms, ms[i].b)
  }

  function Vertices(ms: seq<Segment>): set<Coord2>
  {
    (set i | 0 <= i < |ms| :: ms[i].a) + (set i | 0 <= i < |ms| :: ms[i].b)
  }

  /** The vertices a chain starts its segments at. */
  function Starts(acc: seq<Segment>): set<Coord2>
  {
    set i | 0 <= i < |acc| :: acc[i].a
  }

  /** acc is a path of segments from first to c. */
  predicate Path(acc: seq<Segment>, first: Coord2, c: Coord2)
  {
    (|acc| == 0 ==> c == first)
    && (|acc| > 0 ==> acc[0].a == first && acc[|acc| - 1].b == c)
    && forall i :: 0 <= i < |acc| - 1 ==> acc[i].b == acc[i + 1].a
  }

  /** A closed loop through first whose vertices are all distinct. */
  predicate Loop(r: seq<Segment>, first: Coord2)
  {
    |r| > 0 && Path(r, first, first)
    && forall i, j :: 0 <= i < j < |r| ==> r[i].a != r[j].a
  }

  /** Every segment of acc is a mesh segment leaving a vertex that passed
      the check, and no vertex starts two of them. */
  predicate Chain(ms: seq<Segment>, acc: seq<Segment>)
  {
    (forall i :: 0 <= i < |acc| ==> acc[i] in ms && Good(ms, acc[i].a))
    && forall i, j :: 0 <= i < j < |acc| ==> acc[i].a != acc[j].a
  }

  /** What the walk has established so far. */
  predicate Walked(ms: seq<Segment>, first: Coord2, c: Coord2, acc: seq<Segment>)
  {
    Path(acc, first, c) && Chain(ms, acc) && c !in Starts(acc)
  }

  /** The segment entering a vertex that passed the check is unique. */
  lemma OneIncoming(ms: seq<Segment>, v: Coord2, p: Coord2, q: Coord2)
    requires |Incoming(ms, v)| == 1
    requires Segment(p, v) in ms && Segment(q, v) in ms
    ensures p == q
  {
    IncomingMeans(ms, v, p);
    IncomingMeans(ms, v, q);
  }

  /** A walk with one-in one-out vertices never comes back to a vertex
      other than where it began. */
  lemma Fresh(ms: seq<Segment>, first: Coord2, c: Coord2, acc: seq<Segment>, next: Coord2)
    requires Walked(ms, first, c, acc) && Good(ms, c)
    requires Segment(c, next) in ms && next != first
    ensures next != c && next !in Starts(acc)
  {
    if next == c {
      var p := acc[|acc| - 1];
      assert p.a in Starts(acc);
      OneIncoming(ms, c, p.a, c);
    }
    if next in Starts(acc) {
      var i :| 0 <= i < |acc| && acc[i].a == next;
      var p := acc[i - 1];
      assert p.a in Starts(acc);
      OneIncoming(ms, next, p.a, c);
    }
  }

  lemma Shrink(all: set<Coord2>, done: set<Coord2>, c: Coord2)
    requires c in all && c !in done
    ensures |all - (done + {c})| < |all - done|
  {
    assert all - (done + {c}) == (all - done) - {c};
  }

  lemma StartsAppend(acc: seq<Segment>, s: Segment)
    ensures Starts(acc + [s]) == Starts(acc) + {s.a}
  {
    var r := acc + [s];
    assert forall i :: 0 <= i < |acc| ==> r[i] == acc[i];
    assert r[|acc|] == s;
  }

  lemma StartsIn(ms: seq<Segment>, acc: seq<Segment>)
    requires forall i :: 0 <= i < |acc| ==> acc[i] in ms
    ensures Starts(acc) <= Vertices(ms)
  {
    forall v | v in Starts(acc)
      ensures v in Vertices(ms)
    {
      var i :| 0 <= i < |acc| && acc[i].a == v;
      var j :| 0 <= j < |ms| && ms[j] == acc[i];
      assert ms[j].a == v;
    }
  }

  lemma StartIn(ms: seq<Segment>, s: Segment)
    requires s in ms
    ensures s.a in Vertices(ms) && s.b in Vertices(ms)
  {
    var j :| 0 <= j < |ms| && ms[j] == s;
  }

  lemma ChainAppend(ms: seq<Segment>, first: Coord2, c: Coord2, acc: seq<Segment>, next: Coord2)
    requires Walked(ms, first, c, acc) && Good(ms, c) && Segment(c, next) in ms
    ensures Path(acc + [Segment(c, next)], first, next)
    ensures Chain(ms, acc + [Segment(c, next)])
  {
    var r := acc + [Segment(c, next)];
    assert forall i :: 0 <= i < |acc| ==> r[i] == acc[i];
    forall i, j | 0 <= i < j < |r|
      ensures r[i].a != r[j].a
    {
      if j == |acc| {
        assert r[i].a in Starts(acc);
      }
    }
  }

  /** One step of the walk keeps what it has established, and strictly
      shrinks the vertices not yet left. */
  lemma Step(ms: seq<Segment>, first: Coord2, c: Coord2, acc: seq<Segment>, next: Coord2)
    requires Walked(ms, first, c, acc) && Good(ms, c) && Segment(c, next) in ms
    ensures Chain(ms, acc + [Segment(c, next)])
    ensures next == first ==> Loop(acc + [Segment(c, next)], first)
    ensures next != first ==> Walked(ms, first, next, acc + [Segment(c, next)])
    ensures |Vertices(ms) - Starts(acc + [Segment(c, next)])| < |Vertices(ms) - Starts(acc)|
  {
    ChainAppend(ms, first, c, acc, next);
    StartsAppend(acc, Segment(c, next));
    if next != first {
      Fresh(ms, first, c, acc, next);
    }
    StartsIn(ms, acc);
    StartIn(ms, Segment(c, next));
    Shrink(Vertices(ms), Starts(acc), c);
  }

  /** The step of the loop in removeAllConnected, from the vertex c with
      the segments acc already stripped. */
  function Walk(ms: seq<Segment>, first: Coord2, c: Coord2, acc: seq<Segment>): (r: Result<seq<Segment>>)
    requires Walked(ms, first, c, acc)
    ensures r.Success? ==> Loop(r.value, first) && Chain(ms, r.value)
    decreases |Vertices(ms) - Starts(acc)|
  {
    if |Outgoing(ms, c)| != 1 || |Incoming(ms, c)| != 1 then Failure("mesh is non-manifold")
    else
      var next := Outgoing(ms, c)[0];
      OutgoingMeans(ms, c, next);
      Step(ms, first, c, acc, next);
      if next == first then Success(acc + [Segment(c, next)])
      else Walk(ms, first, next, acc + [Segment(c, next)])
  }

  /** removeAllConnected: strip the loop through first. */
  function RemoveAllConnected(ms: seq<Segment>, first: Coord2): (r: Result<seq<Segment>>)
    ensures r.Success? ==> Loop(r.value, first)
    ensures r.Success? ==> forall i :: 0 <= i < |r.value| ==> r.value[i] in ms
  {
    Walk(ms, first, first, [])
  }

  /** The walk fails only at a vertex that does not have exactly one
      outgoing and one incoming segment. */
  lemma {:induction false} WalkFails(ms: seq<Segment>, first: Coord2, c: Coord2, acc: seq<Segment>)
    requires Walked(ms, first, c, acc)
    requires Walk(ms, first, c, acc).Failure?
    ensures exists v :: !Good(ms, v)
    decreases |Vertices(ms) - Starts(acc)|
  {
    if Good(ms, c) {
      var next := Outgoing(ms, c)[0];
      OutgoingMeans(ms, c, next);
      Step(ms, first, c, acc, next);
      WalkFails(ms, first, next, acc + [Segment(c, next)]);
    }
  }

  /** On a manifold mesh the walk from any vertex of the mesh succeeds. */
  lemma {:induction false} WalkManifold(ms: seq<Segment>, first: Coord2, c: Coord2, acc: seq<Segment>)
    requires Walked(ms, first, c, acc)
    requires Manifold(ms) && c in Vertices(ms)
    ensures Walk(ms, first, c, acc).Success?
    decreases |Vertices(ms) - Starts(acc)|
  {
    var j :| 0 <= j < |ms| && (ms[j].a == c || ms[j].b == c);
    assert Good(ms, c);
    var next := Outgoing(ms, c)[0];
    OutgoingMeans(ms, c, next);
    Step(ms, first, c, acc, next);
    if next != first {
      StartIn(ms, Segment(c, next));
      WalkManifold(ms, first, next, acc + [Segment(c, next)]);
    }
  }

  /** removeAllConnected fails exactly on a vertex that breaks the check:
      on a manifold mesh it strips a loop from every vertex, and it
      fails only when some vertex is not one-in one-out. */
  lemma RemoveAllConnectedOutcome(ms: seq<Segment>, first: Coord2)
    ensures Manifold(ms) && first in Vertices(ms) ==> RemoveAllConnected(ms, first).Success?
    ensures RemoveAllConnected(ms, first).Failure? ==> exists v :: !Good(ms, v)
  {
    if Manifold(ms) && first in Vertices(ms) {
      WalkManifold(ms, first, first, []);
    }
    if RemoveAllConnected(ms, first).Failure? {
      WalkFails(ms, first, first, []);
    }
  }

  // ---------------------------------------------------------------------
  // The driver

  /** arbitraryAxis dotted with c. */
  function AxisDot(c: Coord2): real
  {
    0.95177695 * c.x + 0.26858931 * c.y
  }

  /** The vertex with the smallest AxisDot, scanning from best at
      position i and replacing it only on a strictly smaller value. */
  function MinFrom(verts: seq<Coord2>, i: nat, best: Coord2): (r: Coord2)
    requires i <= |verts|
    ensures r == best || exists k :: i <= k < |verts| && r == verts[k]
    ensures AxisDot(r) <= AxisDot(best)
    ensures forall k :: i <= k < |verts| ==> AxisDot(r) <= AxisDot(verts[k])
    decreases |verts| - i
  {
    if i == |verts| then best
    else MinFrom(verts, i + 1, if AxisDot(verts[i]) < AxisDot(best) then verts[i] else best)
  }

  /** minVertex: the first vertex of the list with the smallest AxisDot. */
  function MinVertex(verts: seq<Coord2>): Coord2
    requires |verts| > 0
  {
    MinFrom(verts, 0, verts[0])
  }

  /** MinFrom keeps the earliest of the vertices with the smallest value. */
  lemma {:induction false} MinFromFirst(verts: seq<Coord2>, i: nat, best: Coord2)
    requires i <= |verts|
    ensures var r := MinFrom(verts, i, best);
      r == best || exists k :: i <= k < |verts| && r == verts[k] && AxisDot(r) < AxisDot(best)
                               && forall j :: i <= j < k ==> AxisDot(verts[j]) > AxisDot(r)
    decreases |verts| - i
  {
    if i < |verts| {
      var next := if AxisDot(verts[i]) < AxisDot(best) then verts[i] else best;
      MinFromFirst(verts, i + 1, next);
    }
  }

  /** minVertex is a vertex of the list, no vertex lies lower along the
      axis, and every vertex before it lies strictly higher. */
  lemma MinVertexMeans(verts: seq<Coord2>)
    requires |verts| > 0
    ensures exists k :: 0 <= k < |verts| && MinVertex(verts) == verts[k]
                        && forall j :: 0 <= j < k ==> AxisDot(verts[j]) > AxisDot(verts[k])
    ensures forall k :: 0 <= k < |verts| ==> AxisDot(MinVertex(verts)) <= AxisDot(verts[k])
  {
    MinFromFirst(verts, 0, verts[0]);
    var r := MinVertex(verts);
    if r == verts[0] {
      assert 0 <= 0 < |verts| && r == verts[0];
    }
  }

  /** The vertex list after RemoveFromList of every vertex in done. */
  function Without(verts: seq<Coord2>, done: set<Coord2>): (r: seq<Coord2>)
    ensures forall v :: v in r <==> v in verts && v !in done
    ensures |r| <= |verts|
    ensures (exists v :: v in verts && v in done) ==> |r| < |verts|
  {
    if |verts| == 0 then []
    else (if verts[0] in done then [] else [verts[0]]) + Without(verts[1..], done)
  }

  /** Placing a stripped loop: it goes under the first root whose solid
      contains its minimum vertex, and becomes a new root otherwise. */
  function Place(roots: seq<Hier>, loop: seq<Segment>, minV: Coord2, first: Coord2, inside: Inside): seq<Hier>
  {
    var k := FirstInside(roots, minV, inside);
    if k == |roots| then roots + [Hier(loop, [])]
    else roots[k := InsertLeaf(roots[k], loop, first, inside)]
  }

  function MeshesOf(roots: seq<Hier>): seq<seq<Segment>>
  {
    MeshesList(roots)
  }

  /** The loop becomes a new root exactly when no root's own solid
      contains its minimum vertex, and the hierarchy gains exactly the
      new loop either way. */
  lemma PlaceMeans(roots: seq<Hier>, loop: seq<Segment>, minV: Coord2, first: Coord2, inside: Inside)
    ensures var r := Place(roots, loop, minV, first, inside);
      ((forall k :: 0 <= k < |roots| ==> !inside(roots[k].mesh, minV)) <==> |r| == |roots| + 1)
      && (|r| == |roots| + 1 ==> r == roots + [Hier(loop, [])])
      && multiset(MeshesOf(r)) == multiset(MeshesOf(roots)) + multiset{loop}
  {
    var k := FirstInside(roots, minV, inside);
    if k == |roots| {
      AppendChild(roots, loop);
    } else {
      InsertLeafAdds(roots[k], loop, first, inside);
      ReplaceChild(roots, k, InsertLeaf(roots[k], loop, first, inside), loop);
    }
  }

  /** The loop of uncheckedMeshToHierarchy. `firstVertex` stands for the
      first entry of Mesh.VertexSlice of a stripped loop. */
  function Grow(ms: seq<Segment>, verts: seq<Coord2>, roots: seq<Hier>,
                inside: Inside, firstVertex: seq<Segment> -> Coord2): Result<seq<Hier>>
    decreases |verts|
  {
    if |verts| == 0 then Success(roots)
    else
      var minV := MinVertex(verts);
      var stripped := RemoveAllConnected(ms, minV);
      if stripped.Failure? then Failure(stripped.error)
      else
        var loop := stripped.value;
        MinVertexMeans(verts);
        assert minV in Starts(loop);
        var rest := Without(verts, Starts(loop));
        Grow(ms, rest, Place(roots, loop, minV, firstVertex(loop), inside), inside, firstVertex)
  }

  /** MeshToHierarchy, with the pointer mesh's vertex list given. */
  function MeshToHierarchy(ms: seq<Segment>, verts: seq<Coord2>,
                           inside: Inside, firstVertex: seq<Segment> -> Coord2): (r: Result<seq<Hier>>)
    ensures !Manifold(ms) ==> r == Failure("mesh must be manifold")
  {
    if !Manifold(ms) then Failure("mesh must be manifold")
    else Grow(ms, verts, [], inside, firstVertex)
  }

  /** On a manifold mesh whose vertex list names only mesh vertices, the
      loop strips every vertex without failing. */
  lemma {:induction false} GrowManifold(ms: seq<Segment>, verts: seq<Coord2>, roots: seq<Hier>,
                                        inside: Inside, firstVertex: seq<Segment> -> Coord2)
    requires Manifold(ms)
    requires forall k :: 0 <= k < |verts| ==> verts[k] in Vertices(ms)
    ensures Grow(ms, verts, roots, inside, firstVertex).Success?
    decreases |verts|
  {
    if |verts| > 0 {
      var minV := MinVertex(verts);
      MinVertexMeans(verts);
      RemoveAllConnectedOutcome(ms, minV);
      var loop := RemoveAllConnected(ms, minV).value;
      assert minV in Starts(loop);
      var rest := Without(verts, Starts(loop));
      forall k | 0 <= k < |rest|
        ensures rest[k] in Vertices(ms)
      {
        assert rest[k] in verts;
      }
      GrowManifold(ms, rest, Place(roots, loop, minV, firstVertex(loop), inside), inside, firstVertex);
    }
  }

  /** Every segment of m is a segment of the mesh ms. */
  predicate SubMesh(m: seq<Segment>, ms: seq<Segment>)
  {
    forall s :: s in m ==> s in ms
  }

  predicate AllSubMesh(roots: seq<Hier>, ms: seq<Segment>)
  {
    forall m :: m in MeshesOf(roots) ==> SubMesh(m, ms)
  }

  lemma PlaceSound(roots: seq<Hier>, loop: seq<Segment>, minV: Coord2, first: Coord2,
                   inside: Inside, ms: seq<Segment>)
    requires AllSubMesh(roots, ms) && SubMesh(loop, ms)
    ensures AllSubMesh(Place(roots, loop, minV, first, inside), ms)
  {
    var next := Place(roots, loop, minV, first, inside);
    PlaceMeans(roots, loop, minV, first, inside);
    forall m | m in MeshesOf(next)
      ensures SubMesh(m, ms)
    {
      assert m in multiset(MeshesOf(next));
      if m != loop {
        assert m in multiset(MeshesOf(roots));
      }
    }
  }

  /** Every polygon placed in the hierarchy is made of mesh segments. */
  lemma {:induction false} GrowSound(ms: seq<Segment>, verts: seq<Coord2>, roots: seq<Hier>,
                                     inside: Inside, firstVertex: seq<Segment> -> Coord2)
    requires AllSubMesh(roots, ms)
    ensures var r := Grow(ms, verts, roots, inside, firstVertex);
      r.Success? ==> AllSubMesh(r.value, ms)
    decreases |verts|
  {
    if |verts| > 0 {
      var minV := MinVertex(verts);
      var stripped := RemoveAllConnected(ms, minV);
      if stripped.Success? {
        var loop := stripped.value;
        MinVertexMeans(verts);
        assert minV in Starts(loop);
        assert SubMesh(loop, ms) by {
          forall s | s in loop
            ensures s in ms
          {
            var i :| 0 <= i < |loop| && loop[i] == s;
          }
        }
        PlaceSound(roots, loop, minV, firstVertex(loop), inside, ms);
        GrowSound(ms, Without(verts, Starts(loop)), Place(roots, loop, minV, firstVertex(loop), inside),
                  inside, firstVertex);
      }
    }
  }

  /** MeshToHierarchy fails exactly on a mesh that is not manifold (given
      a vertex list of mesh vertices), and every polygon of its result is
      made of the mesh's segments. */
  lemma MeshToHierarchyMeans(ms: seq<Segment>, verts: seq<Coord2>,
                             inside: Inside, firstVertex: seq<Segment> -> Coord2)
    requires forall k :: 0 <= k < |verts| ==> verts[k] in Vertices(ms)
    ensures var r := MeshToHierarchy(ms, verts, inside, firstVertex);
      (r.Success? <==> Manifold(ms))
      && (r.Success? ==> AllSubMesh(r.value, ms))
  {
    if Manifold(ms) {
      GrowManifold(ms, verts, [], inside, firstVertex);
      GrowSound(ms, verts, [], inside, firstVertex);
    }
  }
}
