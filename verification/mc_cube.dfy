/** Corners, corner-membership masks, cube rotations and edge-midpoint
    triangle stencils of the marching-cubes algorithm (mc.go).

    Corner c of a unit cube sits at offset (c & 1, (c >> 1) & 1, (c >> 2) & 1),
    i.e. the order (0,0,0), (1,0,0), (0,1,0), (1,1,0), (0,0,1), (1,0,1),
    (0,1,1), (1,1,1). A mask is an 8-bit value whose bit c says whether
    corner c is inside the solid. */
module McCube {
  import opened Wrappers

  type Corner = c: nat | c < 8

  /** mcIntersections: one bit per corner, 1 meaning inside. */
  type Mask = bv8

  /** mcRotation, an eight-entry array: for corner c, At(r, c) is the corner that c is moved to. */
  datatype Rotation = Rotation(c0: Corner, c1: Corner, c2: Corner, c3: Corner,
                               c4: Corner, c5: Corner, c6: Corner, c7: Corner)

  /** r[c] of the eight-entry array. */
  function At(r: Rotation, c: Corner): Corner
  {
    match c
    case 0 => r.c0
    case 1 => r.c1
    case 2 => r.c2
    case 3 => r.c3
    case 4 => r.c4
    case 5 => r.c5
    case 6 => r.c6
    case 7 => r.c7
  }

  /** The entries in index order, as the sort's comparator reads them. */
  function Entries(r: Rotation): (s: seq<nat>)
    ensures |s| == 8 && forall c: Corner :: s[c] == At(r, c)
  {
    [r.c0, r.c1, r.c2, r.c3, r.c4, r.c5, r.c6, r.c7]
  }

  /** mcTriangle: three edge midpoints, each given by the two corners of
      its edge, in counter-clockwise order seen from outside. */
  datatype Stencil = Stencil(a0: Corner, b0: Corner, a1: Corner, b1: Corner, a2: Corner, b2: Corner)

  /** 1 << c, spelled out per corner. */
  function Bit(c: Corner): (b: Mask)
  {
    match c
    case 0 => 0x01
    case 1 => 0x02
    case 2 => 0x04
    case 3 => 0x08
    case 4 => 0x10
    case 5 => 0x20
    case 6 => 0x40
    case 7 => 0x80
  }

  /** The mask has corner c inside. */
  predicate Inside(m: Mask, c: Corner)
  {
    m & Bit(c) != 0
  }

  /** The corners a mask marks inside. */
  const AllCorners: set<Corner> := {0, 1, 2, 3, 4, 5, 6, 7}

  lemma AllCornersFacts()
    ensures forall c: Corner :: c in AllCorners
    ensures |AllCorners| == 8
  {
  }

  function InsideSet(m: Mask): (s: set<Corner>)
    ensures forall c: Corner :: c in s <==> Inside(m, c)
  {
    set c | c in AllCorners && Inside(m, c)
  }

  /** Number of inside corners. */
  function Popcount(m: Mask): nat
  {
    |InsideSet(m)|
  }

  lemma BitFacts(c: Corner, k: Corner)
    ensures Inside(Bit(c), k) <==> c == k
  {
  }

  lemma OrFacts(x: Mask, y: Mask, k: Corner)
    ensures Inside(x | y, k) <==> Inside(x, k) || Inside(y, k)
  {
  }

  lemma ZeroFacts(k: Corner)
    ensures !Inside(0, k)
  {
  }

  /** Two masks with the same inside corners are the same mask. */
  lemma MaskExtensionality(x: Mask, y: Mask)
    requires forall k: Corner :: Inside(x, k) <==> Inside(y, k)
    ensures x == y
  {
    assert Inside(x, 0) <==> Inside(y, 0);
    assert Inside(x, 1) <==> Inside(y, 1);
    assert Inside(x, 2) <==> Inside(y, 2);
    assert Inside(x, 3) <==> Inside(y, 3);
    assert Inside(x, 4) <==> Inside(y, 4);
    assert Inside(x, 5) <==> Inside(y, 5);
    assert Inside(x, 6) <==> Inside(y, 6);
    assert Inside(x, 7) <==> Inside(y, 7);
  }

  /** The loop of newMcIntersections: OR in one bit per listed corner. */
  function FromCorners(cs: seq<Corner>): (m: Mask)
    ensures forall k: Corner :: Inside(m, k) <==> k in cs
  {
    if |cs| == 0 then
      ZeroFacts2();
      0
    else
      var rest := FromCorners(cs[1..]);
      assert cs == [cs[0]] + cs[1..];
      forall k: Corner ensures Inside(Bit(cs[0]) | rest, k) <==> k in cs {
        OrFacts(Bit(cs[0]), rest, k);
        BitFacts(cs[0], k);
      }
      Bit(cs[0]) | rest
  }

  lemma ZeroFacts2()
    ensures forall k: Corner :: !Inside(0, k)
  {
  }

  /** newMcIntersections: more than eight corners is a panic. */
  function NewIntersections(cs: seq<Corner>): (r: Result<Mask>)
    ensures |cs| > 8 <==> r.Failure?
    ensures r.Success? ==> forall k: Corner :: Inside(r.value, k) <==> k in cs
  {
    if |cs| > 8 then Failure("expected at most 8 corners") else Success(FromCorners(cs))
  }

  /* ---------------- rotations ---------------- */

  const Identity: Rotation := Rotation(0, 1, 2, 3, 4, 5, 6, 7)

  predicate IsPermutation(r: Rotation)
  {
    forall i: Corner, j: Corner :: i != j ==> At(r, i) != At(r, j)
  }

  /** Compose(m, m1) applies m1 first and then m. */
  function Compose(m: Rotation, m1: Rotation): (r: Rotation)
  {
    Rotation(At(m, m1.c0), At(m, m1.c1), At(m, m1.c2), At(m, m1.c3),
             At(m, m1.c4), At(m, m1.c5), At(m, m1.c6), At(m, m1.c7))
  }

  function ApplyCorner(m: Rotation, c: Corner): Corner
  {
    At(m, c)
  }

  function ApplyTriangle(m: Rotation, t: Stencil): Stencil
  {
    Stencil(ApplyCorner(m, t.a0), ApplyCorner(m, t.b0), ApplyCorner(m, t.a1),
            ApplyCorner(m, t.b1), ApplyCorner(m, t.a2), ApplyCorner(m, t.b2))
  }

  /** Some corner at or after c is inside the mask and is moved to k. */
  predicate MovedFrom(m: Rotation, i: Mask, c: nat, k: Corner)
  {
    exists c': Corner :: c <= c' && Inside(i, c') && At(m, c') == k
  }

  /** The bit that corner c contributes to the rotated mask. */
  function Moved(m: Rotation, i: Mask, c: Corner): Mask
  {
    if Inside(i, c) then Bit(ApplyCorner(m, c)) else 0
  }

  lemma ApplyStep(m: Rotation, i: Mask, c: Corner, rest: Mask, k: Corner)
    requires Inside(rest, k) <==> MovedFrom(m, i, c + 1, k)
    ensures Inside(Moved(m, i, c) | rest, k) <==> MovedFrom(m, i, c, k)
  {
    OrFacts(Moved(m, i, c), rest, k);
    BitFacts(At(m, c), k);
    ZeroFacts(k);
    if Inside(Moved(m, i, c), k) {
      var w: Corner := c;
      assert c <= w && Inside(i, w) && At(m, w) == k;
    }
    if MovedFrom(m, i, c, k) {
      var c': Corner :| c <= c' && Inside(i, c') && At(m, c') == k;
      if c' != c {
        assert MovedFrom(m, i, c + 1, k);
      }
    }
  }

  /** The loop of ApplyIntersections over corners c, c+1, ..., 7. */
  function ApplyFrom(m: Rotation, i: Mask, c: nat): Mask
    requires c <= 8
    decreases 8 - c
  {
    if c == 8 then 0 else Moved(m, i, c) | ApplyFrom(m, i, c + 1)
  }

  /** Bit k of the partial loop is set iff some remaining inside corner moves to k. */
  lemma {:induction false} ApplyFromSpec(m: Rotation, i: Mask, c: nat)
    requires c <= 8
    ensures forall k: Corner :: Inside(ApplyFrom(m, i, c), k) <==> MovedFrom(m, i, c, k)
    decreases 8 - c
  {
    if c == 8 {
      ZeroFacts2();
    } else {
      ApplyFromSpec(m, i, c + 1);
      forall k: Corner ensures Inside(ApplyFrom(m, i, c), k) <==> MovedFrom(m, i, c, k) {
        ApplyStep(m, i, c, ApplyFrom(m, i, c + 1), k);
      }
    }
  }

  /** ApplyIntersections: move the inside bit of every corner c to m[c]. */
  function ApplyIntersections(m: Rotation, i: Mask): Mask
  {
    ApplyFrom(m, i, 0)
  }

  /** Bit k of the rotated mask is set iff some inside corner moves to k. */
  lemma ApplyIntersectionsSpec(m: Rotation, i: Mask)
    ensures forall k: Corner :: Inside(ApplyIntersections(m, i), k) <==> MovedFrom(m, i, 0, k)
  {
    ApplyFromSpec(m, i, 0);
  }

  /* ---------------- cube edges ---------------- */

  /** Two corners span a cube edge exactly when their indices differ in one bit. */
  predicate IsEdge(a: Corner, b: Corner)
  {
    var d := (a as bv8) ^ (b as bv8);
    d == 1 || d == 2 || d == 4
  }

  predicate OnEdges(t: Stencil)
  {
    IsEdge(t.a0, t.b0) && IsEdge(t.a1, t.b1) && IsEdge(t.a2, t.b2)
  }

  predicate PreservesEdges(r: Rotation)
  {
    forall a: Corner, b: Corner :: IsEdge(a, b) ==> IsEdge(At(r, a), At(r, b))
  }
}

/** Algebraic facts about rotations acting on corners, masks and stencils. */
module McRotationFacts {
  import opened McCube

  /** Entry i of a composition is m applied to entry i of m1. */
  lemma ComposeAt(m: Rotation, m1: Rotation, i: Corner)
    ensures At(Compose(m, m1), i) == At(m, At(m1, i))
  {
  }

  /** Composing two permutations of the corners gives a permutation. */
  lemma ComposePermutation(m: Rotation, m1: Rotation)
    requires IsPermutation(m) && IsPermutation(m1)
    ensures IsPermutation(Compose(m, m1))
  {
    forall i: Corner, j: Corner | i != j ensures At(Compose(m, m1), i) != At(Compose(m, m1), j) {
      ComposeAt(m, m1, i);
      ComposeAt(m, m1, j);
    }
  }

  /** Composition is associative, so closure words can be regrouped. */
  lemma ComposeAssociative(a: Rotation, b: Rotation, c: Rotation)
    ensures Compose(a, Compose(b, c)) == Compose(Compose(a, b), c)
  {
  }

  lemma IdentityAt(c: Corner)
    ensures At(Identity, c) == c
  {
  }

  lemma IdentityUnit(m: Rotation)
    ensures Compose(Identity, m) == m && Compose(m, Identity) == m
  {
    IdentityAt(m.c0); IdentityAt(m.c1); IdentityAt(m.c2); IdentityAt(m.c3);
    IdentityAt(m.c4); IdentityAt(m.c5); IdentityAt(m.c6); IdentityAt(m.c7);
  }

  /** Edge preservation is closed under composition. */
  lemma ComposePreservesEdges(m: Rotation, m1: Rotation)
    requires PreservesEdges(m) && PreservesEdges(m1)
    ensures PreservesEdges(Compose(m, m1))
  {
    forall a: Corner, b: Corner | IsEdge(a, b)
      ensures IsEdge(At(Compose(m, m1), a), At(Compose(m, m1), b))
    {
      ComposeAt(m, m1, a);
      ComposeAt(m, m1, b);
      assert IsEdge(At(m1, a), At(m1, b));
    }
  }

  /** For a permutation, bit m[c] of the rotated mask is bit c of the input. */
  lemma ApplyIntersectionsMovesBits(m: Rotation, i: Mask, c: Corner)
    requires IsPermutation(m)
    ensures Inside(ApplyIntersections(m, i), At(m, c)) <==> Inside(i, c)
  {
    ApplyIntersectionsSpec(m, i);
    if Inside(i, c) {
      assert c >= 0 && Inside(i, c) && At(m, c) == At(m, c);
      assert MovedFrom(m, i, 0, At(m, c));
    }
  }

  /** The corners a rotation moves the corners of s to. */
  function Image(m: Rotation, s: set<Corner>): (img: set<Corner>)
  {
    set c | c in s :: At(m, c)
  }

  /** A corner that witnesses MovedFrom. */
  lemma MovedWitness(m: Rotation, i: Mask, c0: nat, k: Corner) returns (c: Corner)
    requires MovedFrom(m, i, c0, k)
    ensures c0 <= c && Inside(i, c) && At(m, c) == k
  {
    c :| c0 <= c && Inside(i, c) && At(m, c) == k;
  }

  lemma InImage(m: Rotation, s: set<Corner>, c: Corner)
    requires c in s
    ensures At(m, c) in Image(m, s)
  {
  }

  lemma RotatedInsideIsImage(m: Rotation, i: Mask, k: Corner)
    requires MovedFrom(m, i, 0, k)
    ensures k in Image(m, InsideSet(i))
  {
    var c := MovedWitness(m, i, 0, k);
    InImage(m, InsideSet(i), c);
  }

  lemma ImageIsRotatedInside(m: Rotation, i: Mask, k: Corner)
    requires IsPermutation(m)
    requires k in Image(m, InsideSet(i))
    ensures k in InsideSet(ApplyIntersections(m, i))
  {
    var c :| c in InsideSet(i) && At(m, c) == k;
    ApplyIntersectionsMovesBits(m, i, c);
  }

  /** The inside set of a rotated mask is the image of the inside set. */
  lemma RotatedInsideSet(m: Rotation, i: Mask)
    requires IsPermutation(m)
    ensures InsideSet(ApplyIntersections(m, i)) == Image(m, InsideSet(i))
  {
    var lhs := InsideSet(ApplyIntersections(m, i));
    var rhs := Image(m, InsideSet(i));
    ApplyIntersectionsSpec(m, i);
    forall k | k in lhs ensures k in rhs {
      RotatedInsideIsImage(m, i, k);
    }
    forall k | k in rhs ensures k in lhs {
      ImageIsRotatedInside(m, i, k);
    }
  }

  /** An injective image of a finite set has the same size. */
  lemma {:induction false} InjectiveImageSize(m: Rotation, s: set<Corner>)
    requires IsPermutation(m)
    ensures |Image(m, s)| == |s|
    decreases |s|
  {
    if s != {} {
      var x :| x in s;
      var rest := s - {x};
      InjectiveImageSize(m, rest);
      var img := Image(m, s);
      var imgRest := Image(m, rest);
      assert img == imgRest + {At(m, x)};
      assert At(m, x) !in imgRest;
    }
  }

  /** A rotation with a left inverse is a permutation. */
  lemma InverseGivesPermutation(r: Rotation, inv: Rotation)
    requires forall c: Corner :: At(inv, At(r, c)) == c
    ensures IsPermutation(r)
  {
  }

  /** The twelve cube edges of the corner diagram, each in both directions. */
  predicate Listed(a: Corner, b: Corner)
  {
       (a == 0 && b == 1)
         || (a == 0 && b == 2)
         || (a == 0 && b == 4)
         || (a == 1 && b == 0)
         || (a == 1 && b == 3)
         || (a == 1 && b == 5)
         || (a == 2 && b == 0)
         || (a == 2 && b == 3)
         || (a == 2 && b == 6)
         || (a == 3 && b == 1)
         || (a == 3 && b == 2)
         || (a == 3 && b == 7)
         || (a == 4 && b == 0)
         || (a == 4 && b == 5)
         || (a == 4 && b == 6)
         || (a == 5 && b == 1)
         || (a == 5 && b == 4)
         || (a == 5 && b == 7)
         || (a == 6 && b == 2)
         || (a == 6 && b == 4)
         || (a == 6 && b == 7)
         || (a == 7 && b == 3)
         || (a == 7 && b == 5)
         || (a == 7 && b == 6)
  }

  /** Every cube edge is one of the listed pairs. */
  lemma EdgeCases(a: Corner, b: Corner)
    requires IsEdge(a, b)
    ensures Listed(a, b)
  {
  }

  /** Each corner pair of the stencil is a listed pair. */
  predicate ListedStencil(t: Stencil)
  {
    Listed(t.a0, t.b0) && Listed(t.a1, t.b1) && Listed(t.a2, t.b2)
  }

  /** Every listed pair is a cube edge. */
  lemma ListedEdge(a: Corner, b: Corner)
    requires Listed(a, b)
    ensures IsEdge(a, b)
  {
  }

  /** A stencil of listed pairs joins cube edges. */
  lemma ListedStencilEdges(t: Stencil)
    requires ListedStencil(t)
    ensures OnEdges(t)
  {
    ListedEdge(t.a0, t.b0);
    ListedEdge(t.a1, t.b1);
    ListedEdge(t.a2, t.b2);
  }

  /** Rotating a mask keeps the number of inside corners. */
  lemma PopcountPreserved(m: Rotation, i: Mask)
    requires IsPermutation(m)
    ensures Popcount(ApplyIntersections(m, i)) == Popcount(i)
  {
    RotatedInsideSet(m, i);
    InjectiveImageSize(m, InsideSet(i));
  }

  lemma IdentityBit(i: Mask, k: Corner)
    ensures Inside(ApplyIntersections(Identity, i), k) <==> Inside(i, k)
  {
    assert At(Identity, k) == k;
    assert IsPermutation(Identity);
    ApplyIntersectionsMovesBits(Identity, i, k);
  }

  /** The identity rotation maps every mask to itself. */
  lemma IdentityFixesMasks(i: Mask)
    ensures ApplyIntersections(Identity, i) == i
  {
    var r := ApplyIntersections(Identity, i);
    forall k: Corner ensures Inside(r, k) <==> Inside(i, k) {
      IdentityBit(i, k);
    }
    MaskExtensionality(r, i);
  }

  /** Rotating by an edge-preserving rotation keeps every stencil pair an edge. */
  lemma ApplyTriangleOnEdges(m: Rotation, t: Stencil)
    requires PreservesEdges(m) && OnEdges(t)
    ensures OnEdges(ApplyTriangle(m, t))
  {
    assert IsEdge(At(m, t.a0), At(m, t.b0));
    assert IsEdge(At(m, t.a1), At(m, t.b1));
    assert IsEdge(At(m, t.a2), At(m, t.b2));
  }

  lemma ApplyComposeBit(m: Rotation, m1: Rotation, i: Mask, c: Corner)
    requires IsPermutation(m) && IsPermutation(m1)
    ensures Inside(ApplyIntersections(Compose(m, m1), i), At(m, At(m1, c))) <==>
            Inside(ApplyIntersections(m, ApplyIntersections(m1, i)), At(m, At(m1, c)))
  {
    ComposePermutation(m, m1);
    ComposeAt(m, m1, c);
    ApplyIntersectionsMovesBits(Compose(m, m1), i, c);
    ApplyIntersectionsMovesBits(m1, i, c);
    ApplyIntersectionsMovesBits(m, ApplyIntersections(m1, i), At(m1, c));
  }

  lemma SubsetSize<T>(a: set<T>, b: set<T>)
    requires a <= b
    ensures |a| <= |b|
  {
    assert b == a + (b - a);
  }

  /** Every corner is the image of some corner under a permutation. */
  lemma PermutationOnto(m: Rotation, k: Corner) returns (c: Corner)
    requires IsPermutation(m)
    ensures At(m, c) == k
  {
    var img := Image(m, AllCorners);
    AllCornersFacts();
    InjectiveImageSize(m, AllCorners);
    assert img <= AllCorners;
    if k !in img {
      SubsetSize(img, AllCorners - {k});
      assert false;
    }
    c :| c in AllCorners && At(m, c) == k;
  }

  /** Rotating a mask by a composition is rotating by each factor in turn. */
  lemma ApplyCompose(m: Rotation, m1: Rotation, i: Mask)
    requires IsPermutation(m) && IsPermutation(m1)
    ensures ApplyIntersections(Compose(m, m1), i) == ApplyIntersections(m, ApplyIntersections(m1, i))
  {
    var lhs := ApplyIntersections(Compose(m, m1), i);
    var rhs := ApplyIntersections(m, ApplyIntersections(m1, i));
    ComposePermutation(m, m1);
    forall k: Corner ensures Inside(lhs, k) <==> Inside(rhs, k) {
      var c := PermutationOnto(Compose(m, m1), k);
      ComposeAt(m, m1, c);
      ApplyComposeBit(m, m1, i, c);
    }
    MaskExtensionality(lhs, rhs);
  }

  /** Only the mask with no corner inside rotates to it. */
  lemma EmptyOnlyFromEmpty(m: Rotation, i: Mask)
    requires IsPermutation(m) && ApplyIntersections(m, i) == 0x00
    ensures i == 0x00
  {
    forall c: Corner ensures Inside(i, c) <==> Inside(0x00, c) {
      ApplyIntersectionsMovesBits(m, i, c);
      ZeroFacts(At(m, c));
      ZeroFacts(c);
    }
    MaskExtensionality(i, 0x00);
  }

  /** Only the mask with every corner inside rotates to it. */
  lemma FullOnlyFromFull(m: Rotation, i: Mask)
    requires IsPermutation(m) && ApplyIntersections(m, i) == 0xff
    ensures i == 0xff
  {
    forall c: Corner ensures Inside(i, c) <==> Inside(0xff, c) {
      ApplyIntersectionsMovesBits(m, i, c);
      FullFacts(At(m, c));
      FullFacts(c);
    }
    MaskExtensionality(i, 0xff);
  }

  lemma FullFacts(k: Corner)
    ensures Inside(0xff, k)
  {
  }
}
