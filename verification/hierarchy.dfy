/** The tree of nested polygons of model2d/mesh_hierarchy.go: each node
    holds one closed polygon and the polygons found inside it.

    A node's MeshSolid is the collider solid of its own mesh; its answer
    is the parameter `inside`, applied to the node's mesh. The order of
    Mesh.VertexSlice and the coordinate map of Mesh.MapCoords live in
    mesh.go, which is not part of this model: a mesh is the sequence of its
    segments, and mapping it maps both ends of every segment. */
module Hierarchy {
  import opened Collisions

  /** MeshHierarchy: Mesh and Children (MeshSolid is `inside` of Mesh). */
  datatype Hier = Hier(mesh: seq<Segment>, children: seq<Hier>)

  /** Solid.Contains of the collider solid of a mesh. */
  type Inside = (seq<Segment>, Coord2) -> bool

  /** MeshHierarchy.Contains: inside the node's own polygon and inside
      none of the children's hierarchies. */
  function Contains(h: Hier, c: Coord2, inside: Inside): bool
  {
    if !inside(h.mesh, c) then false else !AnyContains(h.children, c, inside)
  }

  function AnyContains(cs: seq<Hier>, c: Coord2, inside: Inside): bool
  {
    |cs| > 0 && (Contains(cs[0], c, inside) || AnyContains(cs[1..], c, inside))
  }

  lemma {:induction false} AnyContainsMeans(cs: seq<Hier>, c: Coord2, inside: Inside)
    ensures AnyContains(cs, c, inside) <==> exists k :: 0 <= k < |cs| && Contains(cs[k], c, inside)
    decreases |cs|
  {
    if |cs| > 0 {
      AnyContainsMeans(cs[1..], c, inside);
      assert forall k :: 0 < k < |cs| ==> cs[k] == cs[1..][k - 1];
      if AnyContains(cs[1..], c, inside) {
        var k :| 0 <= k < |cs[1..]| && Contains(cs[1..][k], c, inside);
        assert cs[k + 1] == cs[1..][k];
      }
    }
  }

  /** Contains is false outside the node's own polygon, and inside it
      true exactly when no child hierarchy contains the point. */
  lemma ContainsMeans(h: Hier, c: Coord2, inside: Inside)
    ensures !inside(h.mesh, c) ==> !Contains(h, c, inside)
    ensures inside(h.mesh, c) ==>
      (Contains(h, c, inside) <==> forall k :: 0 <= k < |h.children| ==> !Contains(h.children[k], c, inside))
  {
    AnyContainsMeans(h.children, c, inside);
  }

  // ---------------------------------------------------------------------
  // The even-odd rule

  /** How many polygons of the tree contain c. */
  function Depth(h: Hier, c: Coord2, inside: Inside): nat
  {
    (if inside(h.mesh, c) then 1 else 0) + DepthList(h.children, c, inside)
  }

  function DepthList(cs: seq<Hier>, c: Coord2, inside: Inside): nat
  {
    if |cs| == 0 then 0 else Depth(cs[0], c, inside) + DepthList(cs[1..], c, inside)
  }

  /** At c the tree is nested as a MeshHierarchy promises: a polygon
      containing c lies inside its parent's polygon, and at most one
      child of a node reaches c. */
  ghost predicate Nested(h: Hier, c: Coord2, inside: Inside)
  {
    (forall k :: 0 <= k < |h.children| ==> Nested(h.children[k], c, inside))
    && (forall k :: 0 <= k < |h.children| && Depth(h.children[k], c, inside) > 0 ==> inside(h.mesh, c))
    && (forall j, k :: 0 <= j < k < |h.children| ==>
          Depth(h.children[j], c, inside) == 0 || Depth(h.children[k], c, inside) == 0)
  }

  /** With at most one child reaching c, the children's depth is that
      child's depth, and no other child contains c. */
  lemma {:induction false} DepthListOne(cs: seq<Hier>, c: Coord2, inside: Inside)
    requires forall j, k :: 0 <= j < k < |cs| ==> Depth(cs[j], c, inside) == 0 || Depth(cs[k], c, inside) == 0
    ensures DepthList(cs, c, inside) == 0 <==> forall k :: 0 <= k < |cs| ==> Depth(cs[k], c, inside) == 0
    ensures DepthList(cs, c, inside) > 0 ==>
      exists k :: 0 <= k < |cs| && DepthList(cs, c, inside) == Depth(cs[k], c, inside)
               && forall j :: 0 <= j < |cs| && j != k ==> Depth(cs[j], c, inside) == 0
    decreases |cs|
  {
    if |cs| > 0 {
      var rest := cs[1..];
      assert forall k :: 0 <= k < |rest| ==> rest[k] == cs[k + 1];
      DepthListOne(rest, c, inside);
      if Depth(cs[0], c, inside) > 0 {
        assert forall k :: 0 < k < |cs| ==> Depth(cs[k], c, inside) == 0;
        assert DepthList(rest, c, inside) == 0;
      } else if DepthList(rest, c, inside) > 0 {
        var k :| 0 <= k < |rest| && DepthList(rest, c, inside) == Depth(rest[k], c, inside)
               && forall j :: 0 <= j < |rest| && j != k ==> Depth(rest[j], c, inside) == 0;
        assert DepthList(cs, c, inside) == Depth(cs[k + 1], c, inside);
        forall j | 0 <= j < |cs| && j != k + 1
          ensures Depth(cs[j], c, inside) == 0
        {
          if j > 0 {
            assert cs[j] == rest[j - 1];
          }
        }
      }
    }
  }

  lemma {:induction false} NotInsideNoDepth(h: Hier, c: Coord2, inside: Inside)
    requires Nested(h, c, inside) && !inside(h.mesh, c)
    ensures Depth(h, c, inside) == 0
  {
    DepthListOne(h.children, c, inside);
  }

  lemma NoDepthNoContains(h: Hier, c: Coord2, inside: Inside)
    ensures Depth(h, c, inside) == 0 ==> !Contains(h, c, inside)
  {
  }

  /** The even-odd rule: in a nested tree, c is contained exactly when an
      odd number of the tree's polygons contain it. */
  lemma {:induction false} EvenOdd(h: Hier, c: Coord2, inside: Inside)
    requires Nested(h, c, inside)
    ensures Contains(h, c, inside) <==> Depth(h, c, inside) % 2 == 1
  {
    var cs := h.children;
    ContainsMeans(h, c, inside);
    DepthListOne(cs, c, inside);
    if !inside(h.mesh, c) {
      NotInsideNoDepth(h, c, inside);
    } else if DepthList(cs, c, inside) == 0 {
      forall k | 0 <= k < |cs|
        ensures !Contains(cs[k], c, inside)
      {
        NoDepthNoContains(cs[k], c, inside);
      }
    } else {
      var k :| 0 <= k < |cs| && DepthList(cs, c, inside) == Depth(cs[k], c, inside)
             && forall j :: 0 <= j < |cs| && j != k ==> Depth(cs[j], c, inside) == 0;
      EvenOdd(cs[k], c, inside);
      forall j | 0 <= j < |cs| && j != k
        ensures !Contains(cs[j], c, inside)
      {
        NoDepthNoContains(cs[j], c, inside);
      }
      assert Depth(h, c, inside) == 1 + Depth(cs[k], c, inside);
    }
  }

  // ---------------------------------------------------------------------
  // Leaf insertion

  /** The position of the first child whose own polygon contains v, or
      the number of children when there is none. */
  function FirstInside(cs: seq<Hier>, v: Coord2, inside: Inside): (k: nat)
    ensures k <= |cs|
    ensures forall j :: 0 <= j < k ==> !inside(cs[j].mesh, v)
    ensures k < |cs| ==> inside(cs[k].mesh, v)
  {
    if |cs| == 0 then 0
    else if inside(cs[0].mesh, v) then 0
    else 1 + FirstInside(cs[1..], v, inside)
  }

  /** insertLeaf: v is the new mesh's first vertex. */
  function InsertLeaf(h: Hier, leaf: seq<Segment>, v: Coord2, inside: Inside): Hier
  {
    var k := FirstInside(h.children, v, inside);
    if k == |h.children| then Hier(h.mesh, h.children + [Hier(leaf, [])])
    else Hier(h.mesh, h.children[k := InsertLeaf(h.children[k], leaf, v, inside)])
  }

  /** The polygons of the tree, parent before children. */
  function Meshes(h: Hier): seq<seq<Segment>>
  {
    [h.mesh] + MeshesList(h.children)
  }

  function MeshesList(cs: seq<Hier>): seq<seq<Segment>>
  {
    if |cs| == 0 then [] else Meshes(cs[0]) + MeshesList(cs[1..])
  }

  lemma {:induction false} MeshesListConcat(a: seq<Hier>, b: seq<Hier>)
    ensures MeshesList(a + b) == MeshesList(a) + MeshesList(b)
    decreases |a|
  {
    if |a| > 0 {
      assert (a + b)[1..] == a[1..] + b;
      MeshesListConcat(a[1..], b);
      assert Meshes(a[0]) + (MeshesList(a[1..]) + MeshesList(b))
          == (Meshes(a[0]) + MeshesList(a[1..])) + MeshesList(b);
    } else {
      assert a + b == b;
    }
  }

  /** Replacing one child replaces that child's polygons. */
  lemma MeshesListUpdate(cs: seq<Hier>, k: int, x: Hier)
    requires 0 <= k < |cs|
    ensures multiset(MeshesList(cs[k := x]))
         == multiset(MeshesList(cs)) - multiset(Meshes(cs[k])) + multiset(Meshes(x))
  {
    assert cs == cs[..k] + [cs[k]] + cs[k + 1..];
    assert cs[k := x] == cs[..k] + [x] + cs[k + 1..];
    MeshesListConcat(cs[..k] + [cs[k]], cs[k + 1..]);
    MeshesListConcat(cs[..k], [cs[k]]);
    MeshesListConcat(cs[..k] + [x], cs[k + 1..]);
    MeshesListConcat(cs[..k], [x]);
    assert MeshesList([cs[k]]) == Meshes(cs[k]);
    assert MeshesList([x]) == Meshes(x);
  }

  /** A child's polygons are among its parent list's polygons. */
  lemma MeshesListHas(cs: seq<Hier>, k: int)
    requires 0 <= k < |cs|
    ensures multiset(Meshes(cs[k])) <= multiset(MeshesList(cs))
  {
    assert cs == cs[..k] + [cs[k]] + cs[k + 1..];
    MeshesListConcat(cs[..k] + [cs[k]], cs[k + 1..]);
    MeshesListConcat(cs[..k], [cs[k]]);
    assert MeshesList([cs[k]]) == Meshes(cs[k]);
  }

  /** insertLeaf adds exactly one polygon, the new one, and keeps every
      other polygon of the tree. */
  lemma {:induction false} InsertLeafAdds(h: Hier, leaf: seq<Segment>, v: Coord2, inside: Inside)
    ensures multiset(Meshes(InsertLeaf(h, leaf, v, inside))) == multiset(Meshes(h)) + multiset{leaf}
  {
    var cs := h.children;
    var k := FirstInside(cs, v, inside);
    if k == |cs| {
      AppendChild(cs, leaf);
    } else {
      InsertLeafAdds(cs[k], leaf, v, inside);
      ReplaceChild(cs, k, InsertLeaf(cs[k], leaf, v, inside), leaf);
    }
  }

  lemma AppendChild(cs: seq<Hier>, leaf: seq<Segment>)
    ensures multiset(MeshesList(cs + [Hier(leaf, [])])) == multiset(MeshesList(cs)) + multiset{leaf}
  {
    MeshesListConcat(cs, [Hier(leaf, [])]);
    assert MeshesList([Hier(leaf, [])]) == [leaf];
  }

  lemma ReplaceChild(cs: seq<Hier>, k: int, x: Hier, leaf: seq<Segment>)
    requires 0 <= k < |cs|
    requires multiset(Meshes(x)) == multiset(Meshes(cs[k])) + multiset{leaf}
    ensures multiset(MeshesList(cs[k := x])) == multiset(MeshesList(cs)) + multiset{leaf}
  {
    MeshesListUpdate(cs, k, x);
    MeshesListHas(cs, k);
  }

  /** Hence insertLeaf adds exactly one node. */
  lemma InsertLeafGrows(h: Hier, leaf: seq<Segment>, v: Coord2, inside: Inside)
    ensures |Meshes(InsertLeaf(h, leaf, v, inside))| == |Meshes(h)| + 1
  {
    InsertLeafAdds(h, leaf, v, inside);
    assert |Meshes(InsertLeaf(h, leaf, v, inside))| == |multiset(Meshes(InsertLeaf(h, leaf, v, inside)))|;
  }

  /** insertLeaf descends into the first child whose own polygon contains
      v and appends a new leaf at the end when there is none; the node's
      own polygon and the other children stay as they are. */
  lemma InsertLeafShape(h: Hier, leaf: seq<Segment>, v: Coord2, inside: Inside)
    ensures var r := InsertLeaf(h, leaf, v, inside);
      r.mesh == h.mesh
      && ((forall j :: 0 <= j < |h.children| ==> !inside(h.children[j].mesh, v)) ==>
            r.children == h.children + [Hier(leaf, [])])
      && (forall k :: 0 <= k < |h.children| && inside(h.children[k].mesh, v)
                      && (forall j :: 0 <= j < k ==> !inside(h.children[j].mesh, v)) ==>
            |r.children| == |h.children|
            && r.children[k] == InsertLeaf(h.children[k], leaf, v, inside)
            && forall j :: 0 <= j < |h.children| && j != k ==> r.children[j] == h.children[j])
  {
  }

  // ---------------------------------------------------------------------
  // FullMesh and MapCoords

  function SegmentSet(m: seq<Segment>): set<Segment>
  {
    set s | s in m
  }

  /** FullMesh: the node's segments together with its children's full
      meshes. */
  function FullMesh(h: Hier): set<Segment>
  {
    SegmentSet(h.mesh) + FullList(h.children)
  }

  function FullList(cs: seq<Hier>): set<Segment>
  {
    if |cs| == 0 then {} else FullMesh(cs[0]) + FullList(cs[1..])
  }

  /** A segment is in the full mesh exactly when one of the tree's
      polygons has it. */
  lemma {:induction false} FullMeshMeans(h: Hier, s: Segment)
    ensures s in FullMesh(h) <==> exists m :: m in Meshes(h) && s in m
    decreases h, 1
  {
    FullListMeans(h.children, s);
    if s in h.mesh {
      assert h.mesh in Meshes(h);
    }
  }

  lemma {:induction false} FullListMeans(cs: seq<Hier>, s: Segment)
    ensures s in FullList(cs) <==> exists m :: m in MeshesList(cs) && s in m
    decreases cs, 0
  {
    if |cs| > 0 {
      FullMeshMeans(cs[0], s);
      FullListMeans(cs[1..], s);
      assert MeshesList(cs) == Meshes(cs[0]) + MeshesList(cs[1..]);
    }
  }

  /** Inserting a leaf adds exactly the leaf's segments to the full mesh. */
  lemma {:induction false} FullMeshInsert(h: Hier, leaf: seq<Segment>, v: Coord2, inside: Inside)
    ensures FullMesh(InsertLeaf(h, leaf, v, inside)) == FullMesh(h) + SegmentSet(leaf)
  {
    var r := InsertLeaf(h, leaf, v, inside);
    InsertLeafAdds(h, leaf, v, inside);
    forall s
      ensures s in FullMesh(r) <==> s in FullMesh(h) + SegmentSet(leaf)
    {
      FullMeshMeans(r, s);
      FullMeshMeans(h, s);
      if s in FullMesh(r) {
        var m :| m in Meshes(r) && s in m;
        assert m in multiset(Meshes(r));
      }
      if s in FullMesh(h) {
        var m :| m in Meshes(h) && s in m;
        assert m in multiset(Meshes(h));
        assert m in multiset(Meshes(r));
      }
      if s in SegmentSet(leaf) {
        assert leaf in multiset(Meshes(r));
      }
    }
  }

  /** Mesh.MapCoords: f applied to both ends of every segment. */
  function MapMesh(m: seq<Segment>, f: Coord2 -> Coord2): (r: seq<Segment>)
    ensures |r| == |m|
    ensures forall i :: 0 <= i < |m| ==> r[i] == Segment(f(m[i].a), f(m[i].b))
  {
    if |m| == 0 then [] else [Segment(f(m[0].a), f(m[0].b))] + MapMesh(m[1..], f)
  }

  /** MeshHierarchy.MapCoords; the new solids are those of the mapped
      meshes, which `inside` gives. */
  function MapCoords(h: Hier, f: Coord2 -> Coord2): Hier
  {
    Hier(MapMesh(h.mesh, f), MapList(h.children, f))
  }

  function MapList(cs: seq<Hier>, f: Coord2 -> Coord2): (r: seq<Hier>)
    ensures |r| == |cs|
  {
    if |cs| == 0 then [] else [MapCoords(cs[0], f)] + MapList(cs[1..], f)
  }

  lemma {:induction false} MapListAt(cs: seq<Hier>, f: Coord2 -> Coord2, k: int)
    requires 0 <= k < |cs|
    ensures MapList(cs, f)[k] == MapCoords(cs[k], f)
    decreases |cs|
  {
    if k > 0 {
      MapListAt(cs[1..], f, k - 1);
    }
  }

  /** Two trees of the same shape: the same number of children at every
      node. */
  predicate SameShape(a: Hier, b: Hier)
  {
    |a.children| == |b.children|
    && forall k :: 0 <= k < |a.children| ==> SameShape(a.children[k], b.children[k])
  }

  /** MapCoords keeps the tree's shape and maps every node's polygon. */
  lemma {:induction false} MapCoordsShape(h: Hier, f: Coord2 -> Coord2)
    ensures SameShape(MapCoords(h, f), h)
    ensures MapCoords(h, f).mesh == MapMesh(h.mesh, f)
    decreases h
  {
    forall k | 0 <= k < |h.children|
      ensures SameShape(MapCoords(h, f).children[k], h.children[k])
    {
      MapListAt(h.children, f, k);
      MapCoordsShape(h.children[k], f);
    }
  }

  /** Mapping by the identity gives the same tree back. */
  lemma {:induction false} MapCoordsIdentity(h: Hier, f: Coord2 -> Coord2)
    requires forall p :: f(p) == p
    ensures MapCoords(h, f) == h
    decreases h
  {
    assert MapMesh(h.mesh, f) == h.mesh;
    forall k | 0 <= k < |h.children|
      ensures MapList(h.children, f)[k] == h.children[k]
    {
      MapListAt(h.children, f, k);
      MapCoordsIdentity(h.children[k], f);
    }
    assert MapList(h.children, f) == h.children;
  }
}
