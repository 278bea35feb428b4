/** The 2D colliders of model2d/collisions.go: a segment answers ray and
    circle queries, and a JoinedCollider forwards a query to its children
    only when the ray or circle reaches its combined bounding box.

    Ray.Collision (a 2x2 matrix inverse with a determinant threshold),
    Segment.CircleCollision (which needs square roots) and Segment.Normal
    are passed in as a Geometry; the segment file defining Segment.Min,
    Segment.Max and Normal is not part of this model, and Min/Max are
    taken to be the component-wise corners of the two endpoints. Numbers
    are exact reals; math.Inf(-1) and math.Inf(1) are the NegInf and
    PosInf bounds of the slab test. */
module Collisions {
  import opened Wrappers

  datatype Coord2 = Coord2(x: real, y: real)

  datatype Ray = Ray(origin: Coord2, direction: Coord2)

  datatype Segment = Segment(a: Coord2, b: Coord2)

  /** What Ray.Collision returns: whether the ray or its reverse hits the
      segment, and the multiple of the direction at which it does. */
  datatype RayHit = RayHit(hit: bool, frac: real)

  datatype Geometry = Geometry(
    collision: (Ray, Segment) -> RayHit,
    circle: (Segment, Coord2, real) -> bool,
    normal: Segment -> Coord2)

  function RealMin(a: real, b: real): real
  {
    if a <= b then a else b
  }

  function RealMax(a: real, b: real): real
  {
    if a >= b then a else b
  }

  function CoordMin(p: Coord2, q: Coord2): Coord2
  {
    Coord2(RealMin(p.x, q.x), RealMin(p.y, q.y))
  }

  function CoordMax(p: Coord2, q: Coord2): Coord2
  {
    Coord2(RealMax(p.x, q.x), RealMax(p.y, q.y))
  }

  function SegMin(s: Segment): Coord2
  {
    CoordMin(s.a, s.b)
  }

  function SegMax(s: Segment): Coord2
  {
    CoordMax(s.a, s.b)
  }

  predicate InBox(p: Coord2, lo: Coord2, hi: Coord2)
  {
    lo.x <= p.x <= hi.x && lo.y <= p.y <= hi.y
  }

  /** The box lo'..hi' lies inside lo..hi. */
  predicate Within(lo': Coord2, hi': Coord2, lo: Coord2, hi: Coord2)
  {
    lo.x <= lo'.x && lo.y <= lo'.y && hi'.x <= hi.x && hi'.y <= hi.y
  }

  /** A collider: a segment, or a JoinedCollider with its box and children. */
  datatype Collider =
    | Prim(seg: Segment)
    | Joined(lo: Coord2, hi: Coord2, children: seq<Collider>)

  function Min(c: Collider): Coord2
  {
    match c
    case Prim(s) => SegMin(s)
    case Joined(lo, _, _) => lo
  }

  function Max(c: Collider): Coord2
  {
    match c
    case Prim(s) => SegMax(s)
    case Joined(_, hi, _) => hi
  }

  /** The running minimum of NewJoinedCollider's loop, first child first. */
  function FoldMin(cs: seq<Collider>): Coord2
    requires |cs| >= 1
  {
    if |cs| == 1 then Min(cs[0]) else CoordMin(FoldMin(cs[..|cs| - 1]), Min(cs[|cs| - 1]))
  }

  function FoldMax(cs: seq<Collider>): Coord2
    requires |cs| >= 1
  {
    if |cs| == 1 then Max(cs[0]) else CoordMax(FoldMax(cs[..|cs| - 1]), Max(cs[|cs| - 1]))
  }

  /** NewJoinedCollider: other[0] must exist. */
  function NewJoined(others: seq<Collider>): (r: Collider)
    requires |others| >= 1
    ensures r.Joined? && r.children == others
  {
    Joined(FoldMin(others), FoldMax(others), others)
  }

  /** The running minimum is below every child's and equal to some child's,
      on each axis. */
  lemma {:induction false} FoldMinBounds(cs: seq<Collider>)
    requires |cs| >= 1
    ensures forall k :: 0 <= k < |cs| ==> FoldMin(cs).x <= Min(cs[k]).x && FoldMin(cs).y <= Min(cs[k]).y
    ensures exists k :: 0 <= k < |cs| && FoldMin(cs).x == Min(cs[k]).x
    ensures exists k :: 0 <= k < |cs| && FoldMin(cs).y == Min(cs[k]).y
    decreases |cs|
  {
    if |cs| > 1 {
      var front := cs[..|cs| - 1];
      FoldMinBounds(front);
      var i :| 0 <= i < |front| && FoldMin(front).x == Min(front[i]).x;
      var j :| 0 <= j < |front| && FoldMin(front).y == Min(front[j]).y;
      assert front[i] == cs[i] && front[j] == cs[j];
      assert forall k :: 0 <= k < |front| ==> front[k] == cs[k];
    }
  }

  lemma {:induction false} FoldMaxBounds(cs: seq<Collider>)
    requires |cs| >= 1
    ensures forall k :: 0 <= k < |cs| ==> Max(cs[k]).x <= FoldMax(cs).x && Max(cs[k]).y <= FoldMax(cs).y
    ensures exists k :: 0 <= k < |cs| && FoldMax(cs).x == Max(cs[k]).x
    ensures exists k :: 0 <= k < |cs| && FoldMax(cs).y == Max(cs[k]).y
    decreases |cs|
  {
    if |cs| > 1 {
      var front := cs[..|cs| - 1];
      FoldMaxBounds(front);
      var i :| 0 <= i < |front| && FoldMax(front).x == Max(front[i]).x;
      var j :| 0 <= j < |front| && FoldMax(front).y == Max(front[j]).y;
      assert front[i] == cs[i] && front[j] == cs[j];
      assert forall k :: 0 <= k < |front| ==> front[k] == cs[k];
    }
  }

  /** The joined box encloses every child's box, and no smaller box does:
      each of its four sides is some child's side. */
  lemma NewJoinedBounds(others: seq<Collider>)
    requires |others| >= 1
    ensures var j := NewJoined(others);
      forall k :: 0 <= k < |others| ==> Within(Min(others[k]), Max(others[k]), j.lo, j.hi)
    ensures var j := NewJoined(others);
      (exists k :: 0 <= k < |others| && j.lo.x == Min(others[k]).x)
      && (exists k :: 0 <= k < |others| && j.lo.y == Min(others[k]).y)
      && (exists k :: 0 <= k < |others| && j.hi.x == Max(others[k]).x)
      && (exists k :: 0 <= k < |others| && j.hi.y == Max(others[k]).y)
  {
    FoldMinBounds(others);
    FoldMaxBounds(others);
  }

  // ---------------------------------------------------------------------
  // The slab test of rayCollidesWithBounds

  /** A bound of the ray parameter, possibly infinite. */
  datatype Bound = NegInf | PosInf | At(v: real)

  /** math.Max and math.Min with a finite second argument. */
  function MaxB(b: Bound, a: real): Bound
  {
    match b
    case NegInf => At(a)
    case PosInf => PosInf
    case At(m) => At(RealMax(m, a))
  }

  function MinB(b: Bound, a: real): Bound
  {
    match b
    case NegInf => NegInf
    case PosInf => At(a)
    case At(m) => At(RealMin(m, a))
  }

  /** minFrac and maxFrac. */
  datatype Window = Window(minFrac: Bound, maxFrac: Bound)

  /** One axis of the loop; None is the early `return false`. */
  function AxisStep(w: Window, origin: real, rate: real, lo: real, hi: real): Option<Window>
  {
    if rate == 0.0 then
      if origin < lo || origin > hi then None else Some(w)
    else
      var t1 := (lo - origin) / rate;
      var t2 := (hi - origin) / rate;
      var a := if t1 > t2 then t2 else t1;
      var b := if t1 > t2 then t1 else t2;
      Some(Window(MaxB(w.minFrac, a), MinB(w.maxFrac, b)))
  }

  /** minFrac <= maxFrac && maxFrac >= 0, with the float64 meaning of the
      infinities. */
  predicate Open(w: Window)
  {
    (w.minFrac.NegInf? || w.maxFrac.PosInf? || (w.minFrac.At? && w.maxFrac.At? && w.minFrac.v <= w.maxFrac.v))
    && (w.maxFrac.PosInf? || (w.maxFrac.At? && w.maxFrac.v >= 0.0))
  }

  /** JoinedCollider.rayCollidesWithBounds, the x axis first. */
  function RayCollidesWithBounds(lo: Coord2, hi: Coord2, r: Ray): bool
  {
    var sx := AxisStep(Window(NegInf, PosInf), r.origin.x, r.direction.x, lo.x, hi.x);
    var sy := if sx.None? then None else AxisStep(sx.value, r.origin.y, r.direction.y, lo.y, hi.y);
    sy.Some? && Open(sy.value)
  }

  /** origin + t*direction on one axis. */
  function Along(origin: real, rate: real, t: real): real
  {
    origin + t * rate
  }

  function PointAt(r: Ray, t: real): Coord2
  {
    Coord2(Along(r.origin.x, r.direction.x, t), Along(r.origin.y, r.direction.y, t))
  }

  /** The parameter t lies in the window. */
  predicate Admits(w: Window, t: real)
  {
    (w.minFrac.NegInf? || (w.minFrac.At? && w.minFrac.v <= t))
    && (w.maxFrac.PosInf? || (w.maxFrac.At? && t <= w.maxFrac.v))
  }

  lemma DivBelow(x: real, rate: real, t: real)
    requires rate > 0.0
    ensures x / rate <= t <==> x <= t * rate
    ensures t <= x / rate <==> t * rate <= x
  {
    assert (x / rate) * rate == x;
    if x / rate <= t {
      assert (x / rate) * rate <= t * rate;
    }
    if t <= x / rate {
      assert t * rate <= (x / rate) * rate;
    }
    if x <= t * rate {
      assert x / rate <= (t * rate) / rate;
    }
    if t * rate <= x {
      assert (t * rate) / rate <= x / rate;
    }
  }

  lemma DivAbove(x: real, rate: real, t: real)
    requires rate < 0.0
    ensures x / rate <= t <==> t * rate <= x
    ensures t <= x / rate <==> x <= t * rate
  {
    DivBelow(-x, -rate, t);
    assert (-x) / (-rate) == x / rate;
    assert t * (-rate) == -(t * rate);
  }

  /** With a moving coordinate, the axis's parameter interval holds t
      exactly when the point at t lies within the slab lo..hi. */
  lemma SlabInterval(origin: real, rate: real, lo: real, hi: real, t: real)
    requires rate != 0.0
    ensures var t1 := (lo - origin) / rate;
      var t2 := (hi - origin) / rate;
      var a := if t1 > t2 then t2 else t1;
      var b := if t1 > t2 then t1 else t2;
      (lo <= hi && lo <= Along(origin, rate, t) <= hi ==> a <= t <= b)
      && (lo <= hi && a <= t <= b ==> lo <= Along(origin, rate, t) <= hi)
  {
    if rate > 0.0 {
      DivBelow(lo - origin, rate, t);
      DivBelow(hi - origin, rate, t);
    } else {
      DivAbove(lo - origin, rate, t);
      DivAbove(hi - origin, rate, t);
    }
  }

  /** One axis step narrows the window to the parameters whose point lies
      in the slab; the early return happens exactly when no parameter can. */
  lemma AxisStepMeans(w: Window, origin: real, rate: real, lo: real, hi: real, t: real)
    requires lo <= hi
    ensures AxisStep(w, origin, rate, lo, hi).None? ==> !(lo <= Along(origin, rate, t) <= hi)
    ensures AxisStep(w, origin, rate, lo, hi).Some? ==>
      (Admits(AxisStep(w, origin, rate, lo, hi).value, t) <==> Admits(w, t) && lo <= Along(origin, rate, t) <= hi)
  {
    if rate == 0.0 {
      assert Along(origin, rate, t) == origin;
    } else {
      SlabInterval(origin, rate, lo, hi, t);
    }
  }

  /** Open is the test that some non-negative parameter lies in the window. */
  lemma OpenMeans(w: Window)
    requires !w.minFrac.PosInf? && !w.maxFrac.NegInf?
    ensures Open(w) <==> exists t :: t >= 0.0 && Admits(w, t)
  {
    if Open(w) {
      var t := if w.minFrac.At? then RealMax(w.minFrac.v, 0.0) else 0.0;
      assert Admits(w, t);
    }
  }

  lemma StepReachable(w: Window, origin: real, rate: real, lo: real, hi: real)
    requires !w.minFrac.PosInf? && !w.maxFrac.NegInf?
    ensures AxisStep(w, origin, rate, lo, hi).Some? ==>
      !AxisStep(w, origin, rate, lo, hi).value.minFrac.PosInf?
      && !AxisStep(w, origin, rate, lo, hi).value.maxFrac.NegInf?
  {
  }

  lemma AxisKeeps(w: Window, origin: real, rate: real, lo: real, hi: real, t: real)
    requires Admits(w, t) && lo <= Along(origin, rate, t) <= hi
    ensures AxisStep(w, origin, rate, lo, hi).Some?
    ensures Admits(AxisStep(w, origin, rate, lo, hi).value, t)
  {
    AxisStepMeans(w, origin, rate, lo, hi, t);
  }

  lemma AxisBack(w: Window, origin: real, rate: real, lo: real, hi: real, t: real)
    requires lo <= hi
    requires AxisStep(w, origin, rate, lo, hi).Some? && Admits(AxisStep(w, origin, rate, lo, hi).value, t)
    ensures Admits(w, t) && lo <= Along(origin, rate, t) <= hi
  {
    AxisStepMeans(w, origin, rate, lo, hi, t);
  }

  /** A ray inside the box at a non-negative parameter passes the test. */
  lemma PassesAt(lo: Coord2, hi: Coord2, r: Ray, t: real)
    requires t >= 0.0 && InBox(PointAt(r, t), lo, hi)
    ensures RayCollidesWithBounds(lo, hi, r)
  {
    var w0 := Window(NegInf, PosInf);
    AxisKeeps(w0, r.origin.x, r.direction.x, lo.x, hi.x, t);
    var w := AxisStep(w0, r.origin.x, r.direction.x, lo.x, hi.x).value;
    StepReachable(w0, r.origin.x, r.direction.x, lo.x, hi.x);
    AxisKeeps(w, r.origin.y, r.direction.y, lo.y, hi.y, t);
    StepReachable(w, r.origin.y, r.direction.y, lo.y, hi.y);
    var w' := AxisStep(w, r.origin.y, r.direction.y, lo.y, hi.y).value;
    OpenMeans(w');
  }

  /** A ray that passes the test of a non-empty box is inside it at some
      non-negative parameter. */
  lemma ReachesBox(lo: Coord2, hi: Coord2, r: Ray) returns (t: real)
    requires lo.x <= hi.x && lo.y <= hi.y
    requires RayCollidesWithBounds(lo, hi, r)
    ensures t >= 0.0 && InBox(PointAt(r, t), lo, hi)
  {
    var w0 := Window(NegInf, PosInf);
    var w := AxisStep(w0, r.origin.x, r.direction.x, lo.x, hi.x).value;
    StepReachable(w0, r.origin.x, r.direction.x, lo.x, hi.x);
    StepReachable(w, r.origin.y, r.direction.y, lo.y, hi.y);
    var w' := AxisStep(w, r.origin.y, r.direction.y, lo.y, hi.y).value;
    OpenMeans(w');
    t :| t >= 0.0 && Admits(w', t);
    AxisBack(w, r.origin.y, r.direction.y, lo.y, hi.y, t);
    AxisBack(w0, r.origin.x, r.direction.x, lo.x, hi.x, t);
  }

  /** The slab test answers whether the ray, at some non-negative
      parameter, is inside the box: a ray missing the box never passes, and
      for a non-empty box every ray that passes reaches it. */
  lemma SlabExact(lo: Coord2, hi: Coord2, r: Ray)
    requires lo.x <= hi.x && lo.y <= hi.y
    ensures RayCollidesWithBounds(lo, hi, r) <==> exists t :: t >= 0.0 && InBox(PointAt(r, t), lo, hi)
  {
    forall t | t >= 0.0 && InBox(PointAt(r, t), lo, hi)
      ensures RayCollidesWithBounds(lo, hi, r)
    {
      PassesAt(lo, hi, r, t);
    }
    if RayCollidesWithBounds(lo, hi, r) {
      var t := ReachesBox(lo, hi, r);
    }
  }

  // ---------------------------------------------------------------------
  // Ray counting

  /** Segment.RayCollisions: a hit ahead of the origin counts once. */
  function SegRayCollisions(g: Geometry, s: Segment, r: Ray): int
  {
    var h := g.collision(r, s);
    if h.hit && h.frac >= 0.0 then 1 else 0
  }

  /** Collider.RayCollisions. */
  function Count(g: Geometry, c: Collider, r: Ray): int
  {
    match c
    case Prim(s) => SegRayCollisions(g, s, r)
    case Joined(lo, hi, children) =>
      if !RayCollidesWithBounds(lo, hi, r) then 0 else CountList(g, children, r)
  }

  function CountList(g: Geometry, cs: seq<Collider>, r: Ray): int
  {
    if |cs| == 0 then 0 else Count(g, cs[0], r) + CountList(g, cs[1..], r)
  }

  // ---------------------------------------------------------------------
  // First ray collision

  /** What FirstRayCollision returns: collides, distance, normal. */
  datatype First = First(collides: bool, distance: real, normal: Coord2)

  /** The zero values the Go code starts from and returns on a miss. */
  const Zero := First(false, 0.0, Coord2(0.0, 0.0))

  /** Segment.FirstRayCollision: only a hit ahead of the origin collides;
      the distance is reported either way. */
  function SegFirst(g: Geometry, s: Segment, r: Ray): First
  {
    var h := g.collision(r, s);
    First(h.hit && h.frac >= 0.0, h.frac, g.normal(s))
  }

  /** One iteration of JoinedCollider.FirstRayCollision's loop: a colliding
      child replaces the best so far when nothing collided yet or it is
      strictly nearer. */
  function Pick(acc: First, h: First): First
  {
    if h.collides && (h.distance < acc.distance || !acc.collides) then First(true, h.distance, h.normal)
    else acc
  }

  function PickAll(hs: seq<First>, acc: First): First
  {
    if |hs| == 0 then acc else PickAll(hs[1..], Pick(acc, hs[0]))
  }

  /** Collider.FirstRayCollision. */
  function FirstHit(g: Geometry, c: Collider, r: Ray): First
  {
    match c
    case Prim(s) => SegFirst(g, s, r)
    case Joined(lo, hi, children) =>
      if !RayCollidesWithBounds(lo, hi, r) then Zero else PickAll(ChildHits(g, children, r), Zero)
  }

  /** The children's answers, in order. */
  function ChildHits(g: Geometry, cs: seq<Collider>, r: Ray): (hs: seq<First>)
    ensures |hs| == |cs|
  {
    if |cs| == 0 then [] else [FirstHit(g, cs[0], r)] + ChildHits(g, cs[1..], r)
  }

  lemma {:induction false} ChildHitsAt(g: Geometry, cs: seq<Collider>, r: Ray, k: int)
    requires 0 <= k < |cs|
    ensures ChildHits(g, cs, r)[k] == FirstHit(g, cs[k], r)
    decreases |cs|
  {
    if k > 0 {
      ChildHitsAt(g, cs[1..], r, k - 1);
    }
  }

  /** The loop of FirstRayCollision ends on the best so far or on a
      colliding answer; it collides exactly when some answer (or the start)
      does; and no colliding answer is nearer than the one it keeps. */
  lemma {:induction false} PickAllMeans(hs: seq<First>, acc: First)
    ensures var res := PickAll(hs, acc);
      res.collides <==> acc.collides || exists k :: 0 <= k < |hs| && hs[k].collides
    ensures var res := PickAll(hs, acc);
      res.collides ==> forall k :: 0 <= k < |hs| && hs[k].collides ==> res.distance <= hs[k].distance
    ensures var res := PickAll(hs, acc);
      res.collides && acc.collides ==> res.distance <= acc.distance
    ensures var res := PickAll(hs, acc);
      res == acc || exists k :: 0 <= k < |hs| && hs[k].collides && res == First(true, hs[k].distance, hs[k].normal)
  {
    if |hs| > 0 {
      var acc' := Pick(acc, hs[0]);
      PickAllMeans(hs[1..], acc');
      assert forall k :: 0 < k < |hs| ==> hs[k] == hs[1..][k - 1];
      var res := PickAll(hs, acc);
      if res != acc && res != acc' {
        var k :| 0 <= k < |hs[1..]| && hs[1..][k].collides && res == First(true, hs[1..][k].distance, hs[1..][k].normal);
        assert hs[k + 1] == hs[1..][k];
      }
    }
  }

  /** JoinedCollider.FirstRayCollision: a miss of the box, or no colliding
      child, reports no collision; otherwise the answer is the nearest
      colliding child's distance and normal. */
  lemma FirstHitMeans(g: Geometry, c: Collider, r: Ray)
    requires c.Joined?
    ensures var res := FirstHit(g, c, r);
      !RayCollidesWithBounds(c.lo, c.hi, r) ==> !res.collides
    ensures var res := FirstHit(g, c, r);
      RayCollidesWithBounds(c.lo, c.hi, r) ==>
        (res.collides <==> exists k :: 0 <= k < |c.children| && FirstHit(g, c.children[k], r).collides)
    ensures var res := FirstHit(g, c, r);
      res.collides ==>
        (exists k :: 0 <= k < |c.children| && FirstHit(g, c.children[k], r).collides
                  && res.distance == FirstHit(g, c.children[k], r).distance
                  && res.normal == FirstHit(g, c.children[k], r).normal)
        && forall k :: 0 <= k < |c.children| && FirstHit(g, c.children[k], r).collides ==>
             res.distance <= FirstHit(g, c.children[k], r).distance
  {
    if RayCollidesWithBounds(c.lo, c.hi, r) {
      var hs := ChildHits(g, c.children, r);
      PickAllMeans(hs, Zero);
      forall k | 0 <= k < |c.children|
        ensures hs[k] == FirstHit(g, c.children[k], r)
      {
        ChildHitsAt(g, c.children, r, k);
      }
    }
  }

  // ---------------------------------------------------------------------
  // Circle collision

  /** How far value lies outside lo..hi, signed as the Go code computes it. */
  function Outside(lo: real, hi: real, value: real): real
  {
    if value < lo then lo - value else if value > hi then hi - value else 0.0
  }

  /** The squared distance from center to the box, as the loop sums it. */
  function BoxDistSq(lo: Coord2, hi: Coord2, center: Coord2): real
  {
    var dx := Outside(lo.x, hi.x, center.x);
    var dy := Outside(lo.y, hi.y, center.y);
    0.0 + dx * dx + dy * dy
  }

  function DistSq(p: Coord2, q: Coord2): real
  {
    (p.x - q.x) * (p.x - q.x) + (p.y - q.y) * (p.y - q.y)
  }

  /** Collider.CircleCollision. */
  function Circle(g: Geometry, c: Collider, center: Coord2, rad: real): bool
  {
    match c
    case Prim(s) => g.circle(s, center, rad)
    case Joined(lo, hi, children) =>
      if BoxDistSq(lo, hi, center) > rad * rad then false else CircleList(g, children, center, rad)
  }

  function CircleList(g: Geometry, cs: seq<Collider>, center: Coord2, rad: real): bool
  {
    if |cs| == 0 then false else Circle(g, cs[0], center, rad) || CircleList(g, cs[1..], center, rad)
  }

  lemma {:induction false} CircleListMeans(g: Geometry, cs: seq<Collider>, center: Coord2, rad: real)
    ensures CircleList(g, cs, center, rad) <==> exists k :: 0 <= k < |cs| && Circle(g, cs[k], center, rad)
    decreases |cs|
  {
    if |cs| > 0 {
      CircleListMeans(g, cs[1..], center, rad);
      assert forall k :: 0 < k < |cs| ==> cs[k] == cs[1..][k - 1];
      if CircleList(g, cs[1..], center, rad) {
        var k :| 0 <= k < |cs[1..]| && Circle(g, cs[1..][k], center, rad);
        assert cs[k + 1] == cs[1..][k];
      }
    }
  }

  /** JoinedCollider.CircleCollision: false when the box is farther than
      the radius; otherwise true exactly when some child collides. */
  lemma CircleMeans(g: Geometry, c: Collider, center: Coord2, rad: real)
    requires c.Joined?
    ensures BoxDistSq(c.lo, c.hi, center) > rad * rad ==> !Circle(g, c, center, rad)
    ensures BoxDistSq(c.lo, c.hi, center) <= rad * rad ==>
      (Circle(g, c, center, rad) <==> exists k :: 0 <= k < |c.children| && Circle(g, c.children[k], center, rad))
  {
    CircleListMeans(g, c.children, center, rad);
  }

  lemma SquareMono(a: real, b: real)
    requires 0.0 <= a <= b
    ensures a * a <= b * b
  {
    assert a * a <= a * b;
    assert a * b <= b * b;
  }

  lemma OutsideLower(lo: real, hi: real, value: real, p: real)
    requires lo <= p <= hi
    ensures Outside(lo, hi, value) * Outside(lo, hi, value) <= (p - value) * (p - value)
  {
    var d := Outside(lo, hi, value);
    if value < lo {
      SquareMono(d, p - value);
    } else if value > hi {
      SquareMono(-d, value - p);
      assert d * d == (-d) * (-d);
      assert (p - value) * (p - value) == (value - p) * (value - p);
    } else {
      assert d * d == 0.0;
    }
  }

  /** The box distance is a lower bound on the squared distance of every
      point of the box, so the circle test never rejects a circle that
      reaches into the box. */
  lemma BoxDistLower(lo: Coord2, hi: Coord2, center: Coord2, p: Coord2)
    requires InBox(p, lo, hi)
    ensures BoxDistSq(lo, hi, center) <= DistSq(p, center)
  {
    OutsideLower(lo.x, hi.x, center.x, p.x);
    OutsideLower(lo.y, hi.y, center.y, p.y);
  }

  // ---------------------------------------------------------------------
  // The joined collider answers as its flat list of segments does

  /** The segments below c, in order. */
  function Flatten(c: Collider): seq<Segment>
  {
    match c
    case Prim(s) => [s]
    case Joined(_, _, children) => FlattenList(children)
  }

  function FlattenList(cs: seq<Collider>): seq<Segment>
  {
    if |cs| == 0 then [] else Flatten(cs[0]) + FlattenList(cs[1..])
  }

  /** Every joined box encloses its children's boxes, all the way down, as
      NewJoinedCollider builds them. */
  predicate Sound(c: Collider)
  {
    match c
    case Prim(_) => true
    case Joined(lo, hi, children) =>
      forall k :: 0 <= k < |children| ==> Within(Min(children[k]), Max(children[k]), lo, hi) && Sound(children[k])
  }

  /** NewJoinedCollider of sound colliders is sound. */
  lemma NewJoinedSound(others: seq<Collider>)
    requires |others| >= 1
    requires forall k :: 0 <= k < |others| ==> Sound(others[k])
    ensures Sound(NewJoined(others))
  {
    NewJoinedBounds(others);
  }

  /** Ray.Collision reports a hit ahead of the origin only at a point of
      the segment's box. */
  ghost predicate HitsInBox(g: Geometry)
  {
    forall s, r :: g.collision(r, s).hit && g.collision(r, s).frac >= 0.0 ==>
      InBox(PointAt(r, g.collision(r, s).frac), SegMin(s), SegMax(s))
  }

  /** Segment.CircleCollision reports a collision only when some point of
      the segment's box is within the radius. */
  ghost predicate CircleNear(g: Geometry)
  {
    forall s, center, rad :: g.circle(s, center, rad) ==>
      exists p :: InBox(p, SegMin(s), SegMax(s)) && DistSq(p, center) <= rad * rad
  }

  lemma WithinTrans(lo'': Coord2, hi'': Coord2, lo': Coord2, hi': Coord2, lo: Coord2, hi: Coord2)
    requires Within(lo'', hi'', lo', hi') && Within(lo', hi', lo, hi)
    ensures Within(lo'', hi'', lo, hi)
  {
  }

  lemma {:induction false} FlattenListAt(cs: seq<Collider>, s: Segment)
    requires s in FlattenList(cs)
    ensures exists k :: 0 <= k < |cs| && s in Flatten(cs[k])
    decreases |cs|
  {
    if s !in Flatten(cs[0]) {
      FlattenListAt(cs[1..], s);
      var k :| 0 <= k < |cs[1..]| && s in Flatten(cs[1..][k]);
      assert cs[k + 1] == cs[1..][k];
    }
  }

  /** In a sound collider every segment's box lies inside the collider's. */
  lemma {:induction false} FlattenInBox(c: Collider, s: Segment)
    requires Sound(c) && s in Flatten(c)
    ensures Within(SegMin(s), SegMax(s), Min(c), Max(c))
  {
    match c
    case Prim(_) =>
    case Joined(lo, hi, children) =>
      FlattenListAt(children, s);
      var k :| 0 <= k < |children| && s in Flatten(children[k]);
      FlattenInBox(children[k], s);
      WithinTrans(SegMin(s), SegMax(s), Min(children[k]), Max(children[k]), lo, hi);
  }

  /** A segment that a ray hits ahead of its origin makes every sound
      collider holding it pass the slab test. */
  lemma HitPasses(g: Geometry, c: Collider, s: Segment, r: Ray)
    requires HitsInBox(g) && c.Joined? && Sound(c) && s in Flatten(c)
    requires SegFirst(g, s, r).collides
    ensures RayCollidesWithBounds(c.lo, c.hi, r)
  {
    var t := g.collision(r, s).frac;
    assert InBox(PointAt(r, t), SegMin(s), SegMax(s));
    FlattenInBox(c, s);
    PassesAt(c.lo, c.hi, r, t);
  }

  function FlatCount(g: Geometry, segs: seq<Segment>, r: Ray): int
  {
    if |segs| == 0 then 0 else SegRayCollisions(g, segs[0], r) + FlatCount(g, segs[1..], r)
  }

  lemma {:induction false} FlatCountConcat(g: Geometry, a: seq<Segment>, b: seq<Segment>, r: Ray)
    ensures FlatCount(g, a + b, r) == FlatCount(g, a, r) + FlatCount(g, b, r)
    decreases |a|
  {
    if |a| > 0 {
      assert (a + b)[1..] == a[1..] + b;
      FlatCountConcat(g, a[1..], b, r);
    } else {
      assert a + b == b;
    }
  }

  lemma {:induction false} FlatCountNone(g: Geometry, segs: seq<Segment>, r: Ray)
    requires forall s :: s in segs ==> !SegFirst(g, s, r).collides
    ensures FlatCount(g, segs, r) == 0
    decreases |segs|
  {
    if |segs| > 0 {
      assert segs[0] in segs;
      FlatCountNone(g, segs[1..], r);
    }
  }

  /** The box filter never changes the count: a sound joined collider
      counts the hits of the flat list of its segments. */
  lemma {:induction false} CountFlat(g: Geometry, c: Collider, r: Ray)
    requires Sound(c) && HitsInBox(g)
    ensures Count(g, c, r) == FlatCount(g, Flatten(c), r)
    decreases c, 1
  {
    match c
    case Prim(s) =>
    case Joined(lo, hi, children) =>
      if RayCollidesWithBounds(lo, hi, r) {
        CountListFlat(g, children, r);
      } else {
        forall s | s in Flatten(c)
          ensures !SegFirst(g, s, r).collides
        {
          if SegFirst(g, s, r).collides {
            HitPasses(g, c, s, r);
          }
        }
        FlatCountNone(g, Flatten(c), r);
      }
  }

  lemma {:induction false} CountListFlat(g: Geometry, cs: seq<Collider>, r: Ray)
    requires forall k :: 0 <= k < |cs| ==> Sound(cs[k])
    requires HitsInBox(g)
    ensures CountList(g, cs, r) == FlatCount(g, FlattenList(cs), r)
    decreases cs, 0
  {
    if |cs| > 0 {
      CountFlat(g, cs[0], r);
      assert forall k :: 0 <= k < |cs[1..]| ==> cs[1..][k] == cs[k + 1];
      CountListFlat(g, cs[1..], r);
      FlatCountConcat(g, Flatten(cs[0]), FlattenList(cs[1..]), r);
    }
  }

  /** The segments' answers, in order. */
  function SegHits(g: Geometry, segs: seq<Segment>, r: Ray): (hs: seq<First>)
    ensures |hs| == |segs|
  {
    if |segs| == 0 then [] else [SegFirst(g, segs[0], r)] + SegHits(g, segs[1..], r)
  }

  lemma {:induction false} SegHitsConcat(g: Geometry, a: seq<Segment>, b: seq<Segment>, r: Ray)
    ensures SegHits(g, a + b, r) == SegHits(g, a, r) + SegHits(g, b, r)
    decreases |a|
  {
    if |a| > 0 {
      assert (a + b)[1..] == a[1..] + b;
      SegHitsConcat(g, a[1..], b, r);
      var h := [SegFirst(g, a[0], r)];
      assert h + (SegHits(g, a[1..], r) + SegHits(g, b, r)) == (h + SegHits(g, a[1..], r)) + SegHits(g, b, r);
    } else {
      assert a + b == b;
    }
  }

  lemma {:induction false} PickAllConcat(a: seq<First>, b: seq<First>, acc: First)
    ensures PickAll(a + b, acc) == PickAll(b, PickAll(a, acc))
    decreases |a|
  {
    if |a| > 0 {
      assert (a + b)[1..] == a[1..] + b;
      PickAllConcat(a[1..], b, Pick(acc, a[0]));
    } else {
      assert a + b == b;
    }
  }

  lemma PickShift(acc: First, h: First, f: First)
    ensures Pick(Pick(acc, h), f) == Pick(acc, Pick(Pick(Zero, h), f))
  {
  }

  /** Running the loop from any start is picking between that start and
      the loop's answer from the zero values. */
  lemma {:induction false} PickAllRebase(hs: seq<First>, acc: First)
    ensures PickAll(hs, acc) == Pick(acc, PickAll(hs, Zero))
    decreases |hs|
  {
    if |hs| > 0 {
      PickAllRebase(hs[1..], Pick(acc, hs[0]));
      PickAllRebase(hs[1..], Pick(Zero, hs[0]));
      PickShift(acc, hs[0], PickAll(hs[1..], Zero));
    } else {
      assert Pick(acc, Zero) == acc;
    }
  }

  lemma {:induction false} PickAllNone(hs: seq<First>, acc: First)
    requires forall k :: 0 <= k < |hs| ==> !hs[k].collides
    ensures PickAll(hs, acc) == acc
    decreases |hs|
  {
    if |hs| > 0 {
      assert forall k :: 0 <= k < |hs[1..]| ==> hs[1..][k] == hs[k + 1];
      PickAllNone(hs[1..], acc);
    }
  }

  lemma {:induction false} SegHitsAt(g: Geometry, segs: seq<Segment>, r: Ray, k: int)
    requires 0 <= k < |segs|
    ensures SegHits(g, segs, r)[k] == SegFirst(g, segs[k], r)
    decreases |segs|
  {
    if k > 0 {
      SegHitsAt(g, segs[1..], r, k - 1);
    }
  }

  /** The box filter never changes the first hit: picking a sound
      collider's answer is running the loop over its flat segment list. */
  lemma {:induction false} FirstFlat(g: Geometry, c: Collider, r: Ray, acc: First)
    requires Sound(c) && HitsInBox(g)
    ensures Pick(acc, FirstHit(g, c, r)) == PickAll(SegHits(g, Flatten(c), r), acc)
    decreases c, 1
  {
    match c
    case Prim(s) =>
      assert SegHits(g, [s], r) == [SegFirst(g, s, r)];
    case Joined(lo, hi, children) =>
      var hs := SegHits(g, Flatten(c), r);
      if RayCollidesWithBounds(lo, hi, r) {
        FirstListFlat(g, children, r, Zero);
        PickAllRebase(hs, acc);
      } else {
        forall k | 0 <= k < |hs|
          ensures !hs[k].collides
        {
          SegHitsAt(g, Flatten(c), r, k);
          if hs[k].collides {
            HitPasses(g, c, Flatten(c)[k], r);
          }
        }
        PickAllNone(hs, acc);
      }
  }

  lemma {:induction false} FirstListFlat(g: Geometry, cs: seq<Collider>, r: Ray, acc: First)
    requires forall k :: 0 <= k < |cs| ==> Sound(cs[k])
    requires HitsInBox(g)
    ensures PickAll(ChildHits(g, cs, r), acc) == PickAll(SegHits(g, FlattenList(cs), r), acc)
    decreases cs, 0
  {
    if |cs| > 0 {
      var a := SegHits(g, Flatten(cs[0]), r);
      var b := SegHits(g, FlattenList(cs[1..]), r);
      FirstFlat(g, cs[0], r, acc);
      assert forall k :: 0 <= k < |cs[1..]| ==> cs[1..][k] == cs[k + 1];
      FirstListFlat(g, cs[1..], r, Pick(acc, FirstHit(g, cs[0], r)));
      SegHitsConcat(g, Flatten(cs[0]), FlattenList(cs[1..]), r);
      PickAllConcat(a, b, acc);
    }
  }

  /** Hence the joined collider's first hit is the flat list's: the same
      collision answer, and on a collision the same distance and normal. */
  lemma FirstHitFlat(g: Geometry, c: Collider, r: Ray)
    requires Sound(c) && HitsInBox(g)
    ensures var res := FirstHit(g, c, r);
      var flat := PickAll(SegHits(g, Flatten(c), r), Zero);
      res.collides == flat.collides
      && (res.collides ==> res.distance == flat.distance && res.normal == flat.normal)
  {
    FirstFlat(g, c, r, Zero);
  }

  /** The box filter never changes the circle answer either: a sound
      collider touches the circle exactly when one of its segments does. */
  lemma {:induction false} CircleFlat(g: Geometry, c: Collider, center: Coord2, rad: real)
    requires Sound(c) && CircleNear(g)
    ensures Circle(g, c, center, rad) <==> exists s :: s in Flatten(c) && g.circle(s, center, rad)
    decreases c, 1
  {
    match c
    case Prim(s) =>
      assert s in Flatten(c);
    case Joined(lo, hi, children) =>
      if BoxDistSq(lo, hi, center) <= rad * rad {
        CircleListFlat(g, children, center, rad);
      } else {
        forall s | s in Flatten(c)
          ensures !g.circle(s, center, rad)
        {
          if g.circle(s, center, rad) {
            var p :| InBox(p, SegMin(s), SegMax(s)) && DistSq(p, center) <= rad * rad;
            FlattenInBox(c, s);
            BoxDistLower(lo, hi, center, p);
          }
        }
      }
  }

  lemma {:induction false} CircleListFlat(g: Geometry, cs: seq<Collider>, center: Coord2, rad: real)
    requires forall k :: 0 <= k < |cs| ==> Sound(cs[k])
    requires CircleNear(g)
    ensures CircleList(g, cs, center, rad) <==> exists s :: s in FlattenList(cs) && g.circle(s, center, rad)
    decreases cs, 0
  {
    if |cs| > 0 {
      CircleFlat(g, cs[0], center, rad);
      assert forall k :: 0 <= k < |cs[1..]| ==> cs[1..][k] == cs[k + 1];
      CircleListFlat(g, cs[1..], center, rad);
      assert FlattenList(cs) == Flatten(cs[0]) + FlattenList(cs[1..]);
    }
  }

  // ---------------------------------------------------------------------
  // Counting and first hit agree

  /** Segment.RayCollisions counts exactly the hits FirstRayCollision
      reports. */
  lemma SegCountAgrees(g: Geometry, s: Segment, r: Ray)
    ensures SegRayCollisions(g, s, r) == (if SegFirst(g, s, r).collides then 1 else 0)
  {
  }

  /** Any collider counts some ray collision exactly when its first ray
      collision collides. */
  lemma {:induction false} CountAgrees(g: Geometry, c: Collider, r: Ray)
    ensures Count(g, c, r) >= 0
    ensures Count(g, c, r) > 0 <==> FirstHit(g, c, r).collides
    decreases c, 1
  {
    match c
    case Prim(s) =>
    case Joined(lo, hi, children) =>
      if RayCollidesWithBounds(lo, hi, r) {
        CountListAgrees(g, children, r, Zero);
      }
  }

  lemma {:induction false} CountListAgrees(g: Geometry, cs: seq<Collider>, r: Ray, acc: First)
    ensures CountList(g, cs, r) >= 0
    ensures CountList(g, cs, r) > 0 || acc.collides <==> PickAll(ChildHits(g, cs, r), acc).collides
    decreases cs, 0
  {
    if |cs| > 0 {
      CountAgrees(g, cs[0], r);
      CountListAgrees(g, cs[1..], r, Pick(acc, FirstHit(g, cs[0], r)));
    }
  }
}
