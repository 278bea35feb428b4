/** The signed distance functions of model3d/sdf.go: the bounding-volume
    tree of a triangle list (meshDistFunc), its pruned nearest-triangle
    search in the Dist and PointDist flavours, the mesh SDF built on it,
    and the bisection SDF that works for any collider.

    What the file relies on but does not define is passed in: the
    triangle distance and closest point (triangle.go), the point distance
    (Coord3D.Dist), the squared point-to-box distance
    (pointToBoundsDistSquared), the solid's Contains answer and the
    collider's SphereCollision answer. triangle.go and the file defining
    pointToBoundsDistSquared are not part of this model. Distances are
    exact reals; math.Inf(1) is the Inf value of Ext. */
module Sdf {
  import opened Wrappers
  import opened MeshCore

  /** A float64 distance that may be positive infinity. */
  datatype Ext = Fin(v: real) | Inf

  /** math.Min on two such values. */
  function MinOf(a: Ext, b: Ext): (r: Ext)
    ensures r == a || r == b
    ensures Le(r, a) && Le(r, b)
  {
    if a.Inf? then b
    else if b.Inf? then a
    else if a.v <= b.v then a else b
  }

  predicate Le(a: Ext, b: Ext)
  {
    b.Inf? || (a.Fin? && a.v <= b.v)
  }

  predicate Lt(a: Ext, b: Ext)
  {
    a.Fin? && (b.Inf? || a.v < b.v)
  }

  predicate NonNeg(a: Ext)
  {
    a.Inf? || a.v >= 0.0
  }

  /** The facts about the modelled program's environment the search uses. */
  datatype Metric = Metric(
    triDist: (Tri, Coord) -> real,
    closest: (Tri, Coord) -> Coord,
    pointDist: (Coord, Coord) -> real,
    boxDist: (Coord, Coord, Coord) -> real)

  function RealMin(a: real, b: real): real
  {
    if a <= b then a else b
  }

  function RealMax(a: real, b: real): real
  {
    if a >= b then a else b
  }

  /** Coord3D.Min and Coord3D.Max: component-wise. */
  function CoordMin(p: Coord, q: Coord): Coord
  {
    Coord(RealMin(p.x, q.x), RealMin(p.y, q.y), RealMin(p.z, q.z))
  }

  function CoordMax(p: Coord, q: Coord): Coord
  {
    Coord(RealMax(p.x, q.x), RealMax(p.y, q.y), RealMax(p.z, q.z))
  }

  /** Triangle.Min and Triangle.Max: the corners of its bounding box. */
  function TriMin(t: Tri): Coord
  {
    CoordMin(CoordMin(t.p0, t.p1), t.p2)
  }

  function TriMax(t: Tri): Coord
  {
    CoordMax(CoordMax(t.p0, t.p1), t.p2)
  }

  predicate InBox(p: Coord, lo: Coord, hi: Coord)
  {
    lo.x <= p.x <= hi.x && lo.y <= p.y <= hi.y && lo.z <= p.z <= hi.z
  }

  /** meshDistFunc: a leaf holds one triangle (root), a node two children;
      both carry a bounding box. */
  datatype DistTree =
    | Leaf(root: Tri, lo: Coord, hi: Coord)
    | Node(lo: Coord, hi: Coord, left: DistTree, right: DistTree)

  /** The leaves' triangles, left to right. */
  function Leaves(t: DistTree): seq<Tri>
  {
    match t
    case Leaf(root, _, _) => [root]
    case Node(_, _, left, right) => Leaves(left) + Leaves(right)
  }

  /** Each box is its triangle's box at a leaf, and the component-wise
      min/max of the children's boxes at a node. */
  predicate Boxed(t: DistTree)
  {
    match t
    case Leaf(root, lo, hi) => lo == TriMin(root) && hi == TriMax(root)
    case Node(lo, hi, left, right) =>
      lo == CoordMin(left.lo, right.lo) && hi == CoordMax(left.hi, right.hi)
      && Boxed(left) && Boxed(right)
  }

  /** newMeshDistFunc: one triangle is a leaf; otherwise the first half
      (len/2 triangles) goes left and the rest right. Read left to right,
      the leaves are the input triangles. */
  function Build(tris: seq<Tri>): (r: DistTree)
    requires |tris| >= 1
    ensures Leaves(r) == tris
    decreases |tris|
  {
    if |tris| == 1 then Leaf(tris[0], TriMin(tris[0]), TriMax(tris[0]))
    else
      var mid := |tris| / 2;
      var t1 := Build(tris[..mid]);
      var t2 := Build(tris[mid..]);
      assert tris[..mid] + tris[mid..] == tris;
      Node(CoordMin(t1.lo, t2.lo), CoordMax(t1.hi, t2.hi), t1, t2)
  }

  /** A split puts the first len/2 triangles in the left child. */
  lemma BuildSplit(tris: seq<Tri>)
    requires |tris| >= 2
    ensures Build(tris).Node?
    ensures Leaves(Build(tris).left) == tris[..|tris| / 2]
    ensures Leaves(Build(tris).right) == tris[|tris| / 2..]
  {
  }

  /** Every box newMeshDistFunc builds is the tight one. */
  lemma {:induction false} BuildBoxed(tris: seq<Tri>)
    requires |tris| >= 1
    ensures Boxed(Build(tris))
    decreases |tris|
  {
    if |tris| > 1 {
      BuildBoxed(tris[..|tris| / 2]);
      BuildBoxed(tris[|tris| / 2..]);
    }
  }

  lemma TriInOwnBox(t: Tri, i: int)
    requires 0 <= i < 3
    ensures InBox(At(t, i), TriMin(t), TriMax(t))
  {
  }

  /** Every corner of every triangle below a node lies in the node's box. */
  lemma {:induction false} Encloses(t: DistTree)
    requires Boxed(t)
    ensures forall l, i :: l in Leaves(t) && 0 <= i < 3 ==> InBox(At(l, i), t.lo, t.hi)
  {
    match t
    case Leaf(root, _, _) =>
      forall l, i | l in Leaves(t) && 0 <= i < 3
        ensures InBox(At(l, i), t.lo, t.hi)
      {
        TriInOwnBox(l, i);
      }
    case Node(_, _, left, right) =>
      Encloses(left);
      Encloses(right);
  }

  /** The two children in the order Dist visits them, each with its
      squared box distance: ascending, and left first on a tie. */
  datatype Visit = Visit(first: DistTree, firstBound: real, second: DistTree, secondBound: real)

  function Order(t: DistTree, c: Coord, g: Metric): (r: Visit)
    requires t.Node?
    ensures r.firstBound <= r.secondBound
    ensures (r.first == t.left && r.second == t.right) || (r.first == t.right && r.second == t.left)
    ensures r.firstBound == g.boxDist(c, r.first.lo, r.first.hi)
    ensures r.secondBound == g.boxDist(c, r.second.lo, r.second.hi)
    ensures g.boxDist(c, t.left.lo, t.left.hi) <= g.boxDist(c, t.right.lo, t.right.hi) ==> r.first == t.left
  {
    var b0 := g.boxDist(c, t.left.lo, t.left.hi);
    var b1 := g.boxDist(c, t.right.lo, t.right.hi);
    if b0 > b1 then Visit(t.right, b1, t.left, b0) else Visit(t.left, b0, t.right, b1)
  }

  /** A child is skipped when its box is farther than the best distance so
      far; an infinite best distance never skips. */
  predicate Pruned(bound: real, cur: Ext)
  {
    cur.Fin? && bound > cur.v * cur.v
  }

  /** meshDistFunc.Dist(c, curMin). */
  function Dist(t: DistTree, c: Coord, cur: Ext, g: Metric): (r: Ext)
    ensures Le(r, cur)
    ensures cur.Inf? ==> r.Fin?
    decreases t
  {
    match t
    case Leaf(root, _, _) => MinOf(cur, Fin(g.triDist(root, c)))
    case Node(_, _, _, _) =>
      var o := Order(t, c, g);
      var cur1 := if Pruned(o.firstBound, cur) then cur else MinOf(cur, Dist(o.first, c, cur, g));
      if Pruned(o.secondBound, cur1) then cur1 else MinOf(cur1, Dist(o.second, c, cur1, g))
  }

  /** The distance to the nearest triangle below t. */
  function Nearest(t: DistTree, c: Coord, g: Metric): real
  {
    match t
    case Leaf(root, _, _) => g.triDist(root, c)
    case Node(_, _, left, right) => RealMin(Nearest(left, c, g), Nearest(right, c, g))
  }

  /** Nearest is the minimum of the leaves' distances: no leaf is nearer,
      and some leaf is that near. */
  lemma {:induction false} NearestIsMin(t: DistTree, c: Coord, g: Metric)
    ensures forall l :: l in Leaves(t) ==> Nearest(t, c, g) <= g.triDist(l, c)
    ensures exists l :: l in Leaves(t) && Nearest(t, c, g) == g.triDist(l, c)
  {
    match t
    case Leaf(root, _, _) =>
      assert root in Leaves(t);
    case Node(_, _, left, right) =>
      NearestIsMin(left, c, g);
      NearestIsMin(right, c, g);
      var l0 :| l0 in Leaves(left) && Nearest(left, c, g) == g.triDist(l0, c);
      var l1 :| l1 in Leaves(right) && Nearest(right, c, g) == g.triDist(l1, c);
      if Nearest(left, c, g) <= Nearest(right, c, g) {
        assert l0 in Leaves(t);
      } else {
        assert l1 in Leaves(t);
      }
  }

  /** The box distance of s is a lower bound on the squared distance of
      every triangle below s. */
  predicate LowerBound(s: DistTree, c: Coord, g: Metric)
  {
    forall l :: l in Leaves(s) ==> g.boxDist(c, s.lo, s.hi) <= g.triDist(l, c) * g.triDist(l, c)
  }

  /** Triangle distances are non-negative and every child's box distance is
      a lower bound, all the way down. */
  predicate Tight(t: DistTree, c: Coord, g: Metric)
  {
    match t
    case Leaf(root, _, _) => g.triDist(root, c) >= 0.0
    case Node(_, _, left, right) =>
      LowerBound(left, c, g) && LowerBound(right, c, g) && Tight(left, c, g) && Tight(right, c, g)
  }

  lemma {:induction false} NearestNonNeg(t: DistTree, c: Coord, g: Metric)
    requires Tight(t, c, g)
    ensures Nearest(t, c, g) >= 0.0
  {
    match t
    case Leaf(_, _, _) =>
    case Node(_, _, left, right) =>
      NearestNonNeg(left, c, g);
      NearestNonNeg(right, c, g);
  }

  lemma SquareOrder(a: real, b: real)
    requires a >= 0.0 && b >= 0.0 && a * a < b * b
    ensures a < b
  {
  }

  lemma Beyond(bound: real, a: real, b: real)
    requires a >= 0.0 && b >= 0.0 && bound > a * a && bound <= b * b
    ensures a < b
  {
    SquareOrder(a, b);
  }

  /** The box distance is a lower bound on the nearest triangle's squared
      distance too. */
  lemma NearBound(s: DistTree, c: Coord, g: Metric)
    requires LowerBound(s, c, g)
    ensures g.boxDist(c, s.lo, s.hi) <= Nearest(s, c, g) * Nearest(s, c, g)
  {
    NearestIsMin(s, c, g);
    var l :| l in Leaves(s) && Nearest(s, c, g) == g.triDist(l, c);
  }

  /** A pruned child could not have improved the best distance. */
  lemma PruneSafe(s: DistTree, bound: real, c: Coord, cur: Ext, g: Metric)
    requires bound == g.boxDist(c, s.lo, s.hi)
    requires LowerBound(s, c, g) && Tight(s, c, g) && NonNeg(cur)
    requires Pruned(bound, cur)
    ensures MinOf(cur, Fin(Nearest(s, c, g))) == cur
  {
    NearestNonNeg(s, c, g);
    var n := Nearest(s, c, g);
    NearBound(s, c, g);
    Beyond(bound, cur.v, n);
  }

  lemma MinOfAssoc(a: Ext, b: real, d: real)
    ensures MinOf(MinOf(a, Fin(b)), Fin(d)) == MinOf(a, Fin(RealMin(b, d)))
  {
  }

  /** Despite the pruning, Dist finds the nearest triangle: when the box
      distances are lower bounds, the result is the smaller of curMin and
      the nearest leaf's distance. */
  lemma {:induction false} DistExact(t: DistTree, c: Coord, cur: Ext, g: Metric)
    requires Tight(t, c, g) && NonNeg(cur)
    ensures Dist(t, c, cur, g) == MinOf(cur, Fin(Nearest(t, c, g)))
  {
    match t
    case Leaf(_, _, _) =>
    case Node(_, _, left, right) =>
      var o := Order(t, c, g);
      var n0 := Nearest(o.first, c, g);
      var n1 := Nearest(o.second, c, g);
      NearestNonNeg(o.first, c, g);
      NearestNonNeg(o.second, c, g);
      var cur1 := if Pruned(o.firstBound, cur) then cur else MinOf(cur, Dist(o.first, c, cur, g));
      if Pruned(o.firstBound, cur) {
        PruneSafe(o.first, o.firstBound, c, cur, g);
      } else {
        DistExact(o.first, c, cur, g);
      }
      assert cur1 == MinOf(cur, Fin(n0));
      if Pruned(o.secondBound, cur1) {
        PruneSafe(o.second, o.secondBound, c, cur1, g);
      } else {
        DistExact(o.second, c, cur1, g);
      }
      MinOfAssoc(cur, n0, n1);
      assert RealMin(n0, n1) == Nearest(t, c, g);
  }

  /** Whatever the boxes say, Dist answers curMin or the distance of one
      of the triangles below t. */
  lemma {:induction false} DistAttained(t: DistTree, c: Coord, cur: Ext, g: Metric)
    ensures Dist(t, c, cur, g) == cur
         || exists l :: l in Leaves(t) && Dist(t, c, cur, g) == Fin(g.triDist(l, c))
  {
    match t
    case Leaf(root, _, _) =>
      assert root in Leaves(t);
    case Node(_, _, left, right) =>
      var o := Order(t, c, g);
      var cur1 := if Pruned(o.firstBound, cur) then cur else MinOf(cur, Dist(o.first, c, cur, g));
      DistAttained(o.first, c, cur, g);
      DistAttained(o.second, c, cur1, g);
      assert forall l :: l in Leaves(o.first) ==> l in Leaves(t);
      assert forall l :: l in Leaves(o.second) ==> l in Leaves(t);
  }

  /** The running best of PointDist: curPoint and curDist. */
  datatype Best = Best(point: Coord, dist: Ext)

  /** meshDistFunc.PointDist: the leaf replaces the best point only when
      its closest point is strictly nearer. */
  function PointDist(t: DistTree, c: Coord, best: Best, g: Metric): (r: Best)
    ensures Le(r.dist, best.dist)
    ensures r != best ==> Lt(r.dist, best.dist)
    ensures best.dist.Inf? ==> r.dist.Fin?
    decreases t
  {
    match t
    case Leaf(root, _, _) =>
      var cp := g.closest(root, c);
      var d := g.pointDist(cp, c);
      if Lt(Fin(d), best.dist) then Best(cp, Fin(d)) else best
    case Node(_, _, _, _) =>
      var o := Order(t, c, g);
      var b1 := if Pruned(o.firstBound, best.dist) then best else PointDist(o.first, c, best, g);
      if Pruned(o.secondBound, b1.dist) then b1 else PointDist(o.second, c, b1, g)
  }

  /** A changed best point is the closest point of one of the triangles
      below t, and the best distance is that point's distance. */
  lemma {:induction false} PointDistAttained(t: DistTree, c: Coord, best: Best, g: Metric)
    ensures var r := PointDist(t, c, best, g);
      r == best || exists l :: l in Leaves(t) && r.point == g.closest(l, c)
                                && r.dist == Fin(g.pointDist(r.point, c))
  {
    match t
    case Leaf(root, _, _) =>
      assert root in Leaves(t);
    case Node(_, _, left, right) =>
      var o := Order(t, c, g);
      var b1 := if Pruned(o.firstBound, best.dist) then best else PointDist(o.first, c, best, g);
      PointDistAttained(o.first, c, best, g);
      PointDistAttained(o.second, c, b1, g);
      assert forall l :: l in Leaves(o.first) ==> l in Leaves(t);
      assert forall l :: l in Leaves(o.second) ==> l in Leaves(t);
  }

  /** The triangle distance is the distance of the triangle's closest point. */
  predicate Consistent(t: DistTree, c: Coord, g: Metric)
  {
    forall l :: l in Leaves(t) ==> g.triDist(l, c) == g.pointDist(g.closest(l, c), c)
  }

  lemma MinOfLe(a: Ext, b: Ext)
    requires Le(b, a)
    ensures MinOf(a, b) == b
  {
  }

  /** PointDist keeps the same distance as Dist: the two searches prune
      the same children and agree at every leaf. */
  lemma {:induction false} PointDistAgrees(t: DistTree, c: Coord, best: Best, g: Metric)
    requires Consistent(t, c, g)
    ensures PointDist(t, c, best, g).dist == Dist(t, c, best.dist, g)
  {
    match t
    case Leaf(root, _, _) =>
      assert root in Leaves(t);
    case Node(_, _, left, right) =>
      var o := Order(t, c, g);
      assert Consistent(o.first, c, g) && Consistent(o.second, c, g);
      var cur := best.dist;
      var b1 := if Pruned(o.firstBound, cur) then best else PointDist(o.first, c, best, g);
      var cur1 := if Pruned(o.firstBound, cur) then cur else MinOf(cur, Dist(o.first, c, cur, g));
      if !Pruned(o.firstBound, cur) {
        PointDistAgrees(o.first, c, best, g);
        MinOfLe(cur, Dist(o.first, c, cur, g));
      }
      assert b1.dist == cur1;
      if !Pruned(o.secondBound, cur1) {
        PointDistAgrees(o.second, c, b1, g);
        MinOfLe(cur1, Dist(o.second, c, cur1, g));
      }
  }

  /** A triangle's closest point to c lies in the triangle's bounding box,
      at the triangle's distance, which is non-negative. */
  predicate ClosestSound(g: Metric, c: Coord, l: Tri)
  {
    && InBox(g.closest(l, c), TriMin(l), TriMax(l))
    && g.triDist(l, c) == g.pointDist(g.closest(l, c), c)
    && g.triDist(l, c) >= 0.0
  }

  /** A point of the box [lo, hi] is no nearer to c than the box is. */
  predicate BoxBelow(g: Metric, c: Coord, p: Coord, lo: Coord, hi: Coord)
  {
    InBox(p, lo, hi) ==> g.boxDist(c, lo, hi) <= g.pointDist(p, c) * g.pointDist(p, c)
  }

  /** What Triangle.Dist, Triangle.Closest, Coord3D.Dist and
      pointToBoundsDistSquared promise at the query point c: the squared box
      distance is at most the squared distance of every point of the box,
      and every triangle's closest point is sound. */
  ghost predicate MetricSound(g: Metric, c: Coord)
  {
    && (forall p, lo, hi :: BoxBelow(g, c, p, lo, hi))
    && (forall l :: ClosestSound(g, c, l))
  }

  /** The bounding box of every triangle below a node lies in the node's box. */
  lemma LeafBoxWithin(t: DistTree, l: Tri, p: Coord)
    requires Boxed(t) && l in Leaves(t) && InBox(p, TriMin(l), TriMax(l))
    ensures InBox(p, t.lo, t.hi)
  {
    Encloses(t);
    assert InBox(At(l, 0), t.lo, t.hi) && InBox(At(l, 1), t.lo, t.hi) && InBox(At(l, 2), t.lo, t.hi);
  }

  /** With a sound metric, a tight box's distance is a lower bound for
      every triangle below it. */
  lemma BoxedLowerBound(s: DistTree, c: Coord, g: Metric)
    requires Boxed(s) && MetricSound(g, c)
    ensures LowerBound(s, c, g)
  {
    forall l | l in Leaves(s)
      ensures g.boxDist(c, s.lo, s.hi) <= g.triDist(l, c) * g.triDist(l, c)
    {
      ClosestBelow(s, c, g, l);
    }
  }

  lemma ClosestBelow(s: DistTree, c: Coord, g: Metric, l: Tri)
    requires Boxed(s) && l in Leaves(s) && MetricSound(g, c)
    ensures g.boxDist(c, s.lo, s.hi) <= g.triDist(l, c) * g.triDist(l, c)
  {
    var p := g.closest(l, c);
    assert ClosestSound(g, c, l);
    LeafBoxWithin(s, l, p);
    assert BoxBelow(g, c, p, s.lo, s.hi);
  }

  /** On a tree with tight boxes and a sound metric, every box distance is a
      lower bound and the triangle distances are those of the closest points:
      the hypotheses of DistExact and PointSdfExact hold. */
  lemma {:induction false} SoundTight(t: DistTree, c: Coord, g: Metric)
    requires Boxed(t) && MetricSound(g, c)
    ensures Tight(t, c, g) && Consistent(t, c, g)
  {
    match t
    case Leaf(root, _, _) =>
      assert ClosestSound(g, c, root);
    case Node(_, _, left, right) =>
      SoundTight(left, c, g);
      SoundTight(right, c, g);
      BoxedLowerBound(left, c, g);
      BoxedLowerBound(right, c, g);
  }

  /** GroupedTrianglesToSDF: an empty triangle list is refused. */
  function GroupedTrianglesToSdf(tris: seq<Tri>): (r: Result<DistTree>)
    ensures r.Success? <==> |tris| > 0
    ensures r.Success? ==> Leaves(r.value) == tris && Boxed(r.value)
  {
    if |tris| == 0 then Failure("cannot create empty SDF")
    else
      BuildBoxed(tris);
      Success(Build(tris))
  }

  /** meshSDF.SDF: the search starts from an infinite curMin; inside is
      the solid's Contains(c). */
  function MeshSdf(t: DistTree, c: Coord, g: Metric, inside: bool): real
  {
    var d := Dist(t, c, Inf, g).v;
    if inside then d else -d
  }

  /** The mesh SDF is the nearest triangle's distance, negated exactly
      when the solid does not contain c. */
  lemma MeshSdfExact(t: DistTree, c: Coord, g: Metric, inside: bool)
    requires Tight(t, c, g)
    ensures inside ==> MeshSdf(t, c, g, inside) == Nearest(t, c, g)
    ensures !inside ==> MeshSdf(t, c, g, inside) == -Nearest(t, c, g)
    ensures MeshSdf(t, c, g, inside) < 0.0 ==> !inside
  {
    DistExact(t, c, Inf, g);
    NearestNonNeg(t, c, g);
  }

  /** meshSDF.PointSDF: PointDist from the origin at infinite distance. */
  function PointSdf(t: DistTree, c: Coord, g: Metric, inside: bool): (Coord, real)
  {
    var r := PointDist(t, c, Best(Coord(0.0, 0.0, 0.0), Inf), g);
    (r.point, if inside then r.dist.v else -r.dist.v)
  }

  /** PointSDF returns the closest point of a nearest triangle and the
      same signed distance as SDF. */
  lemma PointSdfExact(t: DistTree, c: Coord, g: Metric, inside: bool)
    requires Tight(t, c, g) && Consistent(t, c, g)
    ensures PointSdf(t, c, g, inside).1 == MeshSdf(t, c, g, inside)
    ensures exists l :: l in Leaves(t) && PointSdf(t, c, g, inside).0 == g.closest(l, c)
                     && g.pointDist(g.closest(l, c), c) == Nearest(t, c, g)
  {
    var best := Best(Coord(0.0, 0.0, 0.0), Inf);
    PointDistAgrees(t, c, best, g);
    PointDistAttained(t, c, best, g);
    DistExact(t, c, Inf, g);
  }

  /** The SDF GroupedTrianglesToSDF builds, with a sound metric: its
      magnitude is the distance of one of the input triangles and at most
      every other's, negated exactly when the solid excludes c, and PointSDF
      agrees with it. */
  lemma BuiltSdfExact(tris: seq<Tri>, c: Coord, g: Metric, inside: bool)
    requires GroupedTrianglesToSdf(tris).Success? && MetricSound(g, c)
    ensures var t := GroupedTrianglesToSdf(tris).value;
      && (forall i :: 0 <= i < |tris| ==> (if inside then MeshSdf(t, c, g, inside) else -MeshSdf(t, c, g, inside)) <= g.triDist(tris[i], c))
      && (exists i :: 0 <= i < |tris| && (if inside then MeshSdf(t, c, g, inside) else -MeshSdf(t, c, g, inside)) == g.triDist(tris[i], c))
      && PointSdf(t, c, g, inside).1 == MeshSdf(t, c, g, inside)
  {
    var t := GroupedTrianglesToSdf(tris).value;
    SoundTight(t, c, g);
    MeshSdfExact(t, c, g, inside);
    PointSdfExact(t, c, g, inside);
    NearestIsMin(t, c, g);
    var l :| l in Leaves(t) && Nearest(t, c, g) == g.triDist(l, c);
    var i :| 0 <= i < |tris| && tris[i] == l;
  }

  /** ColliderToSDF: 0 iterations means the default of 32. */
  function Iterations(iterations: int): (r: int)
    ensures r != 0
    ensures iterations != 0 ==> r == iterations
    ensures iterations == 0 ==> r == 32
  {
    if iterations == 0 then 32 else iterations
  }

  /** The loop of boundDistance from iteration i on: hits(r) is the
      collider's SphereCollision(coord, r), initial its answer at 1. */
  function BoundLoop(hits: real -> bool, initial: bool, last: real, next: real, i: int, n: int): (r: (real, real))
    requires last > 0.0 && next > 0.0
    requires hits(last) == initial && hits(next) == initial
    ensures r.0 > 0.0 && r.1 > 0.0
    ensures hits(r.0) == initial
    ensures r == (last, next) || r.1 == (if initial then r.0 / 2.0 else r.0 * 2.0)
    decreases n - i
  {
    if i >= n then (last, next)
    else
      var last' := next;
      var next' := if initial then last' / 2.0 else last' * 2.0;
      if hits(next') != initial then (last', next')
      else BoundLoop(hits, initial, last', next', i + 1, n)
  }

  /** colliderSDF.boundDistance: the interval the doubling or halving
      search from radius 1 ends on, smaller end first. */
  function BoundDistance(hits: real -> bool, n: int): (r: (real, real))
    ensures 0.0 < r.0 <= r.1
    ensures r.1 == r.0 || r.1 == 2.0 * r.0
    ensures hits(r.0) != hits(r.1) || hits(r.0) == hits(1.0)
  {
    var initial := hits(1.0);
    var (last, next) := BoundLoop(hits, initial, 1.0, 1.0, 0, n);
    if next > last then (last, next) else (next, last)
  }

  /** The bisection loop of colliderSDF.SDF from its current interval. */
  function Bisect(hits: real -> bool, lo: real, hi: real, n: int): (r: (real, real))
    requires lo <= hi
    ensures lo <= r.0 <= r.1 <= hi
    ensures !hits(lo) && hits(hi) ==> !hits(r.0) && hits(r.1)
    decreases n
  {
    if n <= 0 then (lo, hi)
    else
      var mid := (lo + hi) / 2.0;
      if hits(mid) then Bisect(hits, lo, mid, n - 1) else Bisect(hits, mid, hi, n - 1)
  }

  /** w halved n times: w / 2^n. */
  function Halved(w: real, n: nat): real
  {
    if n == 0 then w else Halved(w, n - 1) / 2.0
  }

  lemma {:induction false} HalvedSplit(w: real, n: nat)
    requires n > 0
    ensures Halved(w, n) == Halved(w / 2.0, n - 1)
    decreases n
  {
    if n > 1 {
      HalvedSplit(w, n - 1);
    }
  }

  /** Each bisection step halves the interval. */
  lemma {:induction false} BisectWidth(hits: real -> bool, lo: real, hi: real, n: nat)
    requires lo <= hi
    ensures var r := Bisect(hits, lo, hi, n); r.1 - r.0 == Halved(hi - lo, n)
    decreases n
  {
    if n > 0 {
      var mid := (lo + hi) / 2.0;
      HalvedSplit(hi - lo, n);
      if hits(mid) {
        BisectWidth(hits, lo, mid, n - 1);
        assert mid - lo == (hi - lo) / 2.0;
      } else {
        BisectWidth(hits, mid, hi, n - 1);
        assert hi - mid == (hi - lo) / 2.0;
      }
    }
  }

  /** colliderSDF.SDF: bisect the bound interval, take its midpoint, and
      negate it when the solid does not contain the point. */
  function ColliderSdf(hits: real -> bool, inside: bool, iterations: int): (r: real)
    ensures var b := BoundDistance(hits, iterations);
      b.0 <= (if inside then r else -r) <= b.1
  {
    var b := BoundDistance(hits, iterations);
    var m := Bisect(hits, b.0, b.1, iterations);
    var res := (m.0 + m.1) / 2.0;
    if !inside then -res else res
  }

  /** The sphere of radius x hits the collider exactly when x reaches the
      distance d to it. */
  ghost predicate Threshold(hits: real -> bool, d: real)
  {
    forall x :: hits(x) <==> x >= d
  }

  /** When the bound search brackets the true distance d, the bisection
      SDF is within half the final interval of d, and that interval is the
      bound interval halved once per iteration. */
  lemma ColliderSdfError(hits: real -> bool, d: real, inside: bool, iterations: nat)
    requires Threshold(hits, d)
    requires var b := BoundDistance(hits, iterations); hits(b.0) != hits(b.1)
    ensures var b := BoundDistance(hits, iterations);
      var r := if inside then ColliderSdf(hits, inside, iterations) else -ColliderSdf(hits, inside, iterations);
      var err := Halved(b.1 - b.0, iterations) / 2.0;
      d - err <= r <= d + err
  {
    var b := BoundDistance(hits, iterations);
    var m := Bisect(hits, b.0, b.1, iterations);
    assert !hits(b.0) && hits(b.1);
    assert !hits(m.0) && hits(m.1);
    BisectWidth(hits, b.0, b.1, iterations);
  }
}
