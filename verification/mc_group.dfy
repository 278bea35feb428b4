/** The rotation group of the cube, as allMcRotations computes it (mc.go):
    the breadth-first closure of the identity under left composition with
    two quarter turns, put into lexicographic order. */
module McGroup {
  import opened McCube
  import opened McRotationFacts

  /** A quarter turn about the z axis. */
  const ZRotation: Rotation := Rotation(2, 0, 3, 1, 6, 4, 7, 5)

  /** A quarter turn about the x axis. */
  const XRotation: Rotation := Rotation(2, 3, 6, 7, 0, 1, 4, 5)

  /** Entry j of the 24 rotations of the cube in increasing lexicographic order. */
  function ExpectedEntry(j: int): Rotation
  {
    if j == 0 then Rotation(0, 1, 2, 3, 4, 5, 6, 7)
    else if j == 1 then Rotation(0, 2, 4, 6, 1, 3, 5, 7)
    else if j == 2 then Rotation(0, 4, 1, 5, 2, 6, 3, 7)
    else if j == 3 then Rotation(1, 0, 5, 4, 3, 2, 7, 6)
    else if j == 4 then Rotation(1, 3, 0, 2, 5, 7, 4, 6)
    else if j == 5 then Rotation(1, 5, 3, 7, 0, 4, 2, 6)
    else if j == 6 then Rotation(2, 0, 3, 1, 6, 4, 7, 5)
    else if j == 7 then Rotation(2, 3, 6, 7, 0, 1, 4, 5)
    else if j == 8 then Rotation(2, 6, 0, 4, 3, 7, 1, 5)
    else if j == 9 then Rotation(3, 1, 7, 5, 2, 0, 6, 4)
    else if j == 10 then Rotation(3, 2, 1, 0, 7, 6, 5, 4)
    else if j == 11 then Rotation(3, 7, 2, 6, 1, 5, 0, 4)
    else if j == 12 then Rotation(4, 0, 6, 2, 5, 1, 7, 3)
    else if j == 13 then Rotation(4, 5, 0, 1, 6, 7, 2, 3)
    else if j == 14 then Rotation(4, 6, 5, 7, 0, 2, 1, 3)
    else if j == 15 then Rotation(5, 1, 4, 0, 7, 3, 6, 2)
    else if j == 16 then Rotation(5, 4, 7, 6, 1, 0, 3, 2)
    else if j == 17 then Rotation(5, 7, 1, 3, 4, 6, 0, 2)
    else if j == 18 then Rotation(6, 2, 7, 3, 4, 0, 5, 1)
    else if j == 19 then Rotation(6, 4, 2, 0, 7, 5, 3, 1)
    else if j == 20 then Rotation(6, 7, 4, 5, 2, 3, 0, 1)
    else if j == 21 then Rotation(7, 3, 5, 1, 6, 2, 4, 0)
    else if j == 22 then Rotation(7, 5, 6, 4, 3, 1, 2, 0)
    else Rotation(7, 6, 3, 2, 5, 4, 1, 0)
  }

  /** The 24 rotations of the cube in strictly increasing lexicographic order. */
  const Expected: seq<Rotation> := seq(24, j => ExpectedEntry(j))

  /* ---------------- lexicographic order ---------------- */

  /** The comparator of the sort: the first differing position decides. */
  predicate LexLess(a: seq<nat>, b: seq<nat>)
    decreases |a|
  {
    |a| > 0 && |b| > 0 && (a[0] < b[0] || (a[0] == b[0] && LexLess(a[1..], b[1..])))
  }

  lemma {:induction false} LexIrreflexive(a: seq<nat>)
    ensures !LexLess(a, a)
    decreases |a|
  {
    if |a| > 0 {
      LexIrreflexive(a[1..]);
    }
  }

  lemma {:induction false} LexTransitive(a: seq<nat>, b: seq<nat>, c: seq<nat>)
    requires LexLess(a, b) && LexLess(b, c)
    ensures LexLess(a, c)
    decreases |a|
  {
    if a[0] == b[0] && b[0] == c[0] {
      LexTransitive(a[1..], b[1..], c[1..]);
    }
  }

  lemma {:induction false} LexAsymmetric(a: seq<nat>, b: seq<nat>)
    requires LexLess(a, b)
    ensures !LexLess(b, a)
    decreases |a|
  {
    if a[0] == b[0] {
      LexAsymmetric(a[1..], b[1..]);
    }
  }

  lemma {:induction false} LexTotal(a: seq<nat>, b: seq<nat>)
    requires |a| == |b| && a != b
    ensures LexLess(a, b) || LexLess(b, a)
    decreases |a|
  {
    if a[0] == b[0] {
      assert a == [a[0]] + a[1..] && b == [b[0]] + b[1..];
      LexTotal(a[1..], b[1..]);
    }
  }

  /** The comparator of allMcRotations on two rotations. */
  predicate RotLess(a: Rotation, b: Rotation)
  {
    LexLess(Entries(a), Entries(b))
  }

  lemma RotLessTotal(a: Rotation, b: Rotation)
    requires a != b
    ensures RotLess(a, b) || RotLess(b, a)
  {
    LexTotal(Entries(a), Entries(b));
  }

  lemma RotTransitive(a: Rotation, b: Rotation, c: Rotation)
    requires RotLess(a, b) && RotLess(b, c)
    ensures RotLess(a, c)
  {
    LexTransitive(Entries(a), Entries(b), Entries(c));
  }

  /** Strictly increasing: every earlier element is lexicographically smaller. */
  predicate Sorted(s: seq<Rotation>)
  {
    forall i, j :: 0 <= i < j < |s| ==> RotLess(s[i], s[j])
  }

  /** Adjacent order implies the global order. */
  lemma {:induction false} AdjacentSorted(s: seq<Rotation>)
    requires forall i :: 0 < i < |s| ==> RotLess(s[i - 1], s[i])
    ensures Sorted(s)
    decreases |s|
  {
    if |s| > 1 {
      var t := s[..|s| - 1];
      assert forall i :: 0 < i < |t| ==> RotLess(t[i - 1], t[i]);
      AdjacentSorted(t);
      forall i | 0 <= i < |s| - 1 ensures RotLess(s[i], s[|s| - 1]) {
        if i < |s| - 2 {
          assert RotLess(t[i], t[|s| - 2]);
          RotTransitive(s[i], s[|s| - 2], s[|s| - 1]);
        }
      }
    }
  }

  lemma HeadIn(b: seq<Rotation>)
    requires |b| > 0
    ensures b[0] in b
  {
  }

  lemma TailMember(a: seq<Rotation>, b: seq<Rotation>, x: Rotation)
    requires Sorted(a) && |a| > 0 && |b| > 0 && a[0] == b[0]
    requires forall y :: y in a <==> y in b
    requires x in a[1..]
    ensures x in b[1..]
  {
    var i :| 0 <= i < |a[1..]| && a[1..][i] == x;
    assert RotLess(a[0], a[i + 1]);
    LexIrreflexive(Entries(x));
    assert x != b[0];
    assert x in b;
    var j :| 0 <= j < |b| && b[j] == x;
    assert j > 0;
    assert b[1..][j - 1] == x;
  }

  /** A strictly sorted sequence is determined by its elements. */
  lemma {:induction false} SortedUnique(a: seq<Rotation>, b: seq<Rotation>)
    requires Sorted(a) && Sorted(b)
    requires forall x :: x in a <==> x in b
    ensures a == b
    decreases |a|
  {
    if |a| == 0 {
      if |b| > 0 {
        HeadIn(b);
      }
    } else {
      assert a[0] in a;
      assert |b| > 0;
      assert b[0] in b;
      if a[0] != b[0] {
        var j :| 0 <= j < |b| && b[j] == a[0];
        var i :| 0 <= i < |a| && a[i] == b[0];
        assert j > 0 && i > 0;
        LexAsymmetric(Entries(a[0]), Entries(b[0]));
      }
      forall x ensures x in a[1..] <==> x in b[1..] {
        if x in a[1..] {
          TailMember(a, b, x);
        }
        if x in b[1..] {
          TailMember(b, a, x);
        }
      }
      SortedUnique(a[1..], b[1..]);
    }
  }

  /** Insert x into a sorted sequence at the position the comparator gives. */
  method InsertSorted(r: seq<Rotation>, x: Rotation) returns (r': seq<Rotation>)
    requires Sorted(r) && x !in r
    ensures Sorted(r')
    ensures forall y :: y in r' <==> y in r || y == x
    ensures |r'| == |r| + 1
  {
    var k := 0;
    while k < |r| && !RotLess(x, r[k])
      invariant 0 <= k <= |r|
      invariant forall j :: 0 <= j < k ==> RotLess(r[j], x)
    {
      RotLessTotal(r[k], x);
      k := k + 1;
    }
    r' := r[..k] + [x] + r[k..];
    forall i, j | 0 <= i < j < |r'| ensures RotLess(r'[i], r'[j]) {
      if j < k {
        assert r'[i] == r[i] && r'[j] == r[j];
      } else if j == k {
        assert r'[i] == r[i] && r'[j] == x;
      } else if i == k {
        assert r'[j] == r[j - 1];
        if j - 1 > k {
          RotTransitive(x, r[k], r[j - 1]);
        }
      } else if i < k {
        assert r'[i] == r[i] && r'[j] == r[j - 1];
        RotTransitive(r[i], x, r[k]);
        if j - 1 > k {
          RotTransitive(r[i], r[k], r[j - 1]);
        }
      } else {
        assert r'[i] == r[i - 1] && r'[j] == r[j - 1];
      }
    }
  }

  /** sort.Slice with the lexicographic comparator, over the keys of a set. */
  method SortRotations(s: set<Rotation>) returns (r: seq<Rotation>)
    ensures Sorted(r)
    ensures forall y :: y in r <==> y in s
    ensures |r| == |s|
  {
    r := [];
    var rest := s;
    while rest != {}
      invariant rest <= s
      invariant Sorted(r)
      invariant forall y :: y in r <==> y in s && y !in rest
      invariant |r| + |rest| == |s|
      decreases rest
    {
      var x :| x in rest;
      r := InsertSorted(r, x);
      rest := rest - {x};
    }
  }

  /* ---------------- facts about the constants ---------------- */

  lemma ZIsPermutation()
    ensures IsPermutation(ZRotation)
  {
    InverseGivesPermutation(ZRotation, Rotation(1, 3, 0, 2, 5, 7, 4, 6));
  }

  lemma XIsPermutation()
    ensures IsPermutation(XRotation)
  {
    InverseGivesPermutation(XRotation, Rotation(4, 5, 0, 1, 6, 7, 2, 3));
  }

  lemma ZPreservesEdges()
    ensures PreservesEdges(ZRotation)
  {
    forall a: Corner, b: Corner | IsEdge(a, b) ensures IsEdge(At(ZRotation, a), At(ZRotation, b)) {
      EdgeCases(a, b);
      ListedEdge(At(ZRotation, a), At(ZRotation, b));
    }
  }

  lemma XPreservesEdges()
    ensures PreservesEdges(XRotation)
  {
    forall a: Corner, b: Corner | IsEdge(a, b) ensures IsEdge(At(XRotation, a), At(XRotation, b)) {
      EdgeCases(a, b);
      ListedEdge(At(XRotation, a), At(XRotation, b));
    }
  }

  lemma GeneratorsAreRotations()
    ensures IsPermutation(ZRotation) && PreservesEdges(ZRotation)
    ensures IsPermutation(XRotation) && PreservesEdges(XRotation)
  {
    ZIsPermutation();
    XIsPermutation();
    ZPreservesEdges();
    XPreservesEdges();
  }

  lemma IdentityIsPermutation()
    ensures IsPermutation(Identity) && PreservesEdges(Identity)
  {
    forall c: Corner ensures At(Identity, c) == c {
      IdentityAt(c);
    }
  }

  lemma ExpectedSorted()
    ensures Sorted(Expected)
  {
    AdjacentSorted(Expected);
  }

  lemma ExpectedClosedZ()
    ensures forall r :: r in Expected ==> Compose(ZRotation, r) in Expected
  {
    assert Compose(ZRotation, Expected[0]) == Expected[6];
    assert Compose(ZRotation, Expected[1]) == Expected[7];
    assert Compose(ZRotation, Expected[2]) == Expected[8];
    assert Compose(ZRotation, Expected[3]) == Expected[1];
    assert Compose(ZRotation, Expected[4]) == Expected[0];
    assert Compose(ZRotation, Expected[5]) == Expected[2];
    assert Compose(ZRotation, Expected[6]) == Expected[10];
    assert Compose(ZRotation, Expected[7]) == Expected[9];
    assert Compose(ZRotation, Expected[8]) == Expected[11];
    assert Compose(ZRotation, Expected[9]) == Expected[3];
    assert Compose(ZRotation, Expected[10]) == Expected[4];
    assert Compose(ZRotation, Expected[11]) == Expected[5];
    assert Compose(ZRotation, Expected[12]) == Expected[18];
    assert Compose(ZRotation, Expected[13]) == Expected[19];
    assert Compose(ZRotation, Expected[14]) == Expected[20];
    assert Compose(ZRotation, Expected[15]) == Expected[12];
    assert Compose(ZRotation, Expected[16]) == Expected[14];
    assert Compose(ZRotation, Expected[17]) == Expected[13];
    assert Compose(ZRotation, Expected[18]) == Expected[21];
    assert Compose(ZRotation, Expected[19]) == Expected[23];
    assert Compose(ZRotation, Expected[20]) == Expected[22];
    assert Compose(ZRotation, Expected[21]) == Expected[15];
    assert Compose(ZRotation, Expected[22]) == Expected[16];
    assert Compose(ZRotation, Expected[23]) == Expected[17];
  }

  lemma ExpectedClosedX()
    ensures forall r :: r in Expected ==> Compose(XRotation, r) in Expected
  {
    assert Compose(XRotation, Expected[0]) == Expected[7];
    assert Compose(XRotation, Expected[1]) == Expected[8];
    assert Compose(XRotation, Expected[2]) == Expected[6];
    assert Compose(XRotation, Expected[3]) == Expected[10];
    assert Compose(XRotation, Expected[4]) == Expected[11];
    assert Compose(XRotation, Expected[5]) == Expected[9];
    assert Compose(XRotation, Expected[6]) == Expected[18];
    assert Compose(XRotation, Expected[7]) == Expected[20];
    assert Compose(XRotation, Expected[8]) == Expected[19];
    assert Compose(XRotation, Expected[9]) == Expected[21];
    assert Compose(XRotation, Expected[10]) == Expected[23];
    assert Compose(XRotation, Expected[11]) == Expected[22];
    assert Compose(XRotation, Expected[12]) == Expected[1];
    assert Compose(XRotation, Expected[13]) == Expected[0];
    assert Compose(XRotation, Expected[14]) == Expected[2];
    assert Compose(XRotation, Expected[15]) == Expected[4];
    assert Compose(XRotation, Expected[16]) == Expected[3];
    assert Compose(XRotation, Expected[17]) == Expected[5];
    assert Compose(XRotation, Expected[18]) == Expected[14];
    assert Compose(XRotation, Expected[19]) == Expected[12];
    assert Compose(XRotation, Expected[20]) == Expected[13];
    assert Compose(XRotation, Expected[21]) == Expected[17];
    assert Compose(XRotation, Expected[22]) == Expected[15];
    assert Compose(XRotation, Expected[23]) == Expected[16];
  }

  /** Every set that holds the identity and is closed under the two
      generators holds all 24 rotations: the breadth-first tree. */
  lemma ClosureContainsExpected(s: set<Rotation>)
    requires Identity in s
    requires forall r :: r in s ==> Compose(ZRotation, r) in s && Compose(XRotation, r) in s
    ensures forall r :: r in Expected ==> r in s
  {
    assert Expected[0] == Identity;
    assert Expected[6] == Compose(ZRotation, Expected[0]);
    assert Expected[7] == Compose(XRotation, Expected[0]);
    assert Expected[10] == Compose(ZRotation, Expected[6]);
    assert Expected[18] == Compose(XRotation, Expected[6]);
    assert Expected[9] == Compose(ZRotation, Expected[7]);
    assert Expected[20] == Compose(XRotation, Expected[7]);
    assert Expected[4] == Compose(ZRotation, Expected[10]);
    assert Expected[23] == Compose(XRotation, Expected[10]);
    assert Expected[21] == Compose(ZRotation, Expected[18]);
    assert Expected[14] == Compose(XRotation, Expected[18]);
    assert Expected[3] == Compose(ZRotation, Expected[9]);
    assert Expected[22] == Compose(ZRotation, Expected[20]);
    assert Expected[13] == Compose(XRotation, Expected[20]);
    assert Expected[11] == Compose(XRotation, Expected[4]);
    assert Expected[17] == Compose(ZRotation, Expected[23]);
    assert Expected[16] == Compose(XRotation, Expected[23]);
    assert Expected[15] == Compose(ZRotation, Expected[21]);
    assert Expected[2] == Compose(XRotation, Expected[14]);
    assert Expected[1] == Compose(ZRotation, Expected[3]);
    assert Expected[19] == Compose(ZRotation, Expected[13]);
    assert Expected[5] == Compose(ZRotation, Expected[11]);
    assert Expected[12] == Compose(ZRotation, Expected[15]);
    assert Expected[8] == Compose(ZRotation, Expected[2]);
  }

  /* ---------------- group structure ---------------- */

  /** Every one of the 24 rotations is a permutation that keeps cube edges. */
  lemma ExpectedAreRotations()
    ensures forall r :: r in Expected ==> IsPermutation(r) && PreservesEdges(r)
  {
    var s := set r | r in Expected && IsPermutation(r) && PreservesEdges(r);
    ExpectedClosedZ();
    ExpectedClosedX();
    GeneratorsAreRotations();
    IdentityIsPermutation();
    forall r | r in s ensures Compose(ZRotation, r) in s && Compose(XRotation, r) in s {
      ComposePermutation(ZRotation, r);
      ComposePreservesEdges(ZRotation, r);
      ComposePermutation(XRotation, r);
      ComposePreservesEdges(XRotation, r);
    }
    assert Expected[0] == Identity;
    ClosureContainsExpected(s);
  }

  /** Composing a on the left never leaves the rotations in rs. */
  predicate LeftClosed(a: Rotation, rs: seq<Rotation>)
  {
    forall b {:trigger Compose(a, b)} :: b in rs ==> Compose(a, b) in rs
  }

  /** The 24 rotations are closed under composition, not just under the generators. */
  lemma ExpectedClosedCompose()
    ensures forall a, b {:trigger Compose(a, b)} :: a in Expected && b in Expected ==> Compose(a, b) in Expected
  {
    var s := set a | a in Expected && LeftClosed(a, Expected);
    ExpectedClosedZ();
    ExpectedClosedX();
    forall b | b in Expected ensures Compose(Identity, b) in Expected {
      IdentityUnit(b);
    }
    forall a | a in s ensures Compose(ZRotation, a) in s && Compose(XRotation, a) in s {
      forall b | b in Expected ensures Compose(Compose(ZRotation, a), b) in Expected {
        ComposeAssociative(ZRotation, a, b);
      }
      forall b | b in Expected ensures Compose(Compose(XRotation, a), b) in Expected {
        ComposeAssociative(XRotation, a, b);
      }
    }
    assert Expected[0] == Identity;
    ClosureContainsExpected(s);
  }

  /** Every rotation has an inverse among the 24. */
  lemma ExpectedInverse(r: Rotation) returns (r': Rotation)
    requires r in Expected
    ensures r' in Expected && Compose(r', r) == Identity
  {
    var i :| 0 <= i < |Expected| && Expected[i] == r;
    if i < 8 {
      r' := InverseA(i);
    } else if i < 16 {
      r' := InverseB(i);
    } else {
      r' := InverseC(i);
    }
  }

  lemma InverseA(i: nat) returns (r': Rotation)
    requires 0 <= i < 8
    ensures r' in Expected && Compose(r', Expected[i]) == Identity
  {
    if i == 0 {
      r' := Expected[0];
      assert Compose(r', Expected[i]) == Identity;
    } else if i == 1 {
      r' := Expected[2];
      assert Compose(r', Expected[i]) == Identity;
    } else if i == 2 {
      r' := Expected[1];
      assert Compose(r', Expected[i]) == Identity;
    } else if i == 3 {
      r' := Expected[3];
      assert Compose(r', Expected[i]) == Identity;
    } else if i == 4 {
      r' := Expected[6];
      assert Compose(r', Expected[i]) == Identity;
    } else if i == 5 {
      r' := Expected[12];
      assert Compose(r', Expected[i]) == Identity;
    } else if i == 6 {
      r' := Expected[4];
      assert Compose(r', Expected[i]) == Identity;
    } else {
      r' := Expected[13];
      assert Compose(r', Expected[i]) == Identity;
    }
  }

  lemma InverseB(i: nat) returns (r': Rotation)
    requires 8 <= i < 16
    ensures r' in Expected && Compose(r', Expected[i]) == Identity
  {
    if i == 8 {
      r' := Expected[8];
      assert Compose(r', Expected[i]) == Identity;
    } else if i == 9 {
      r' := Expected[15];
      assert Compose(r', Expected[i]) == Identity;
    } else if i == 10 {
      r' := Expected[10];
      assert Compose(r', Expected[i]) == Identity;
    } else if i == 11 {
      r' := Expected[19];
      assert Compose(r', Expected[i]) == Identity;
    } else if i == 12 {
      r' := Expected[5];
      assert Compose(r', Expected[i]) == Identity;
    } else if i == 13 {
      r' := Expected[7];
      assert Compose(r', Expected[i]) == Identity;
    } else if i == 14 {
      r' := Expected[14];
      assert Compose(r', Expected[i]) == Identity;
    } else {
      r' := Expected[9];
      assert Compose(r', Expected[i]) == Identity;
    }
  }

  lemma InverseC(i: nat) returns (r': Rotation)
    requires 16 <= i < 24
    ensures r' in Expected && Compose(r', Expected[i]) == Identity
  {
    if i == 16 {
      r' := Expected[16];
      assert Compose(r', Expected[i]) == Identity;
    } else if i == 17 {
      r' := Expected[18];
      assert Compose(r', Expected[i]) == Identity;
    } else if i == 18 {
      r' := Expected[17];
      assert Compose(r', Expected[i]) == Identity;
    } else if i == 19 {
      r' := Expected[11];
      assert Compose(r', Expected[i]) == Identity;
    } else if i == 20 {
      r' := Expected[20];
      assert Compose(r', Expected[i]) == Identity;
    } else if i == 21 {
      r' := Expected[21];
      assert Compose(r', Expected[i]) == Identity;
    } else if i == 22 {
      r' := Expected[22];
      assert Compose(r', Expected[i]) == Identity;
    } else {
      r' := Expected[23];
      assert Compose(r', Expected[i]) == Identity;
    }
  }

  /** The breadth-first search of allMcRotations: starting from the
      identity, keep composing the two generators onto every rotation taken
      off the queue until nothing new appears. The search never leaves a
      set that holds the identity and is closed under the generators, which
      bounds it. */
  method Closure(bound: set<Rotation>) returns (resMap: set<Rotation>)
    requires Identity in bound
    requires forall r :: r in bound ==>
      Compose(ZRotation, r) in bound && Compose(XRotation, r) in bound
    ensures resMap <= bound
    ensures Identity in resMap
    ensures forall r :: r in resMap ==>
      Compose(ZRotation, r) in resMap && Compose(XRotation, r) in resMap
  {
    var queue: seq<Rotation> := [Identity];
    resMap := {Identity};
    while |queue| > 0
      invariant resMap <= bound
      invariant forall q :: q in queue ==> q in resMap
      invariant Identity in resMap
      invariant forall r :: r in resMap ==>
        r in queue || (Compose(ZRotation, r) in resMap && Compose(XRotation, r) in resMap)
      decreases bound - resMap, |queue|
    {
      var next := queue[0];
      queue := queue[1..];
      queue, resMap := Visit(ZRotation, next, queue, resMap);
      queue, resMap := Visit(XRotation, next, queue, resMap);
    }
  }

  /** One neighbour of the breadth-first search: the rotation g composed
      onto next is recorded and queued unless it was already seen. */
  method Visit(g: Rotation, next: Rotation, queue: seq<Rotation>, resMap: set<Rotation>)
    returns (queue': seq<Rotation>, resMap': set<Rotation>)
    ensures resMap' == resMap + {Compose(g, next)}
    ensures Compose(g, next) in resMap ==> queue' == queue
    ensures Compose(g, next) !in resMap ==> queue' == queue + [Compose(g, next)]
  {
    var rotated := Compose(g, next);
    queue', resMap' := queue, resMap;
    if rotated !in resMap {
      resMap' := resMap + {rotated};
      queue' := queue + [rotated];
    }
  }

  /** allMcRotations: the breadth-first closure, then the lexicographic
      sort; the result is exactly the 24 rotations of the cube. */
  method AllRotations() returns (result: seq<Rotation>)
    ensures result == Expected
    ensures |result| == 24 && Sorted(result)
    ensures Identity in result
    ensures forall r :: r in result ==>
      Compose(ZRotation, r) in result && Compose(XRotation, r) in result
    ensures forall r :: r in result ==> IsPermutation(r) && PreservesEdges(r)
  {
    var expectedSet := set r | r in Expected;
    ExpectedClosedZ();
    ExpectedClosedX();
    assert Expected[0] == Identity;
    var resMap := Closure(expectedSet);
    ExpectedAreRotations();
    ClosureContainsExpected(resMap);
    result := SortRotations(resMap);
    ExpectedSorted();
    SortedUnique(result, Expected);
  }
}
