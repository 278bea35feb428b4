/** The marching-cubes case table: baseTriangleTable, the hand-written
    triangulations of 23 corner configurations, and mcLookupTable, which
    spreads them over all 256 masks by the 24 rotations (mc.go). */
module McTable {
  import opened McCube
  import opened McRotationFacts
  import opened McGroup

  /** One entry of baseTriangleTable: the inside corners, as passed to
      newMcIntersections, and the triangles for that configuration. */
  datatype BaseCase = BaseCase(corners: seq<Corner>, tris: seq<Stencil>)

  /** The key of a base case. Every base case lists at most eight corners,
      so newMcIntersections does not panic on any of them. */
  function BaseMask(b: BaseCase): Mask
  {
    FromCorners(b.corners)
  }

  /** Entry i of baseTriangleTable, in source order. */
  function BaseCaseAt(i: int): BaseCase
  {
    if i == 0 then BaseCase([], [])
    else if i == 1 then BaseCase([0], [Stencil(0, 1, 0, 2, 0, 4)])
    else if i == 2 then BaseCase([0, 1], [Stencil(0, 4, 1, 5, 0, 2), Stencil(1, 5, 1, 3, 0, 2)])
    else if i == 3 then BaseCase([0, 5], [Stencil(0, 1, 0, 2, 0, 4), Stencil(5, 7, 1, 5, 4, 5)])
    else if i == 4 then BaseCase([0, 7], [Stencil(0, 1, 0, 2, 0, 4), Stencil(6, 7, 3, 7, 5, 7)])
    else if i == 5 then BaseCase([1, 2, 3], [Stencil(0, 1, 1, 5, 0, 2), Stencil(0, 2, 1, 5, 2, 6), Stencil(2, 6, 1, 5, 3, 7)])
    else if i == 6 then BaseCase([0, 1, 7], [Stencil(0, 4, 1, 5, 0, 2), Stencil(1, 5, 1, 3, 0, 2), Stencil(6, 7, 3, 7, 5, 7)])
    else if i == 7 then BaseCase([1, 4, 7], [Stencil(4, 6, 4, 5, 0, 4), Stencil(1, 5, 1, 3, 0, 1), Stencil(6, 7, 3, 7, 5, 7)])
    else if i == 8 then BaseCase([0, 1, 2, 3], [Stencil(0, 4, 1, 5, 3, 7), Stencil(0, 4, 3, 7, 2, 6)])
    else if i == 9 then BaseCase([0, 2, 3, 6], [Stencil(0, 1, 4, 6, 0, 4), Stencil(0, 1, 6, 7, 4, 6), Stencil(0, 1, 1, 3, 6, 7), Stencil(1, 3, 3, 7, 6, 7)])
    else if i == 10 then BaseCase([1, 2, 5, 6], [Stencil(0, 2, 2, 3, 6, 7), Stencil(0, 2, 6, 7, 4, 6), Stencil(0, 1, 4, 5, 5, 7), Stencil(5, 7, 1, 3, 0, 1)])
    else if i == 11 then BaseCase([0, 2, 3, 7], [Stencil(0, 4, 0, 1, 2, 6), Stencil(0, 1, 5, 7, 2, 6), Stencil(2, 6, 5, 7, 6, 7), Stencil(0, 1, 1, 3, 5, 7)])
    else if i == 12 then BaseCase([1, 2, 3, 4], [Stencil(0, 1, 1, 5, 0, 2), Stencil(0, 2, 1, 5, 2, 6), Stencil(2, 6, 1, 5, 3, 7), Stencil(4, 5, 0, 4, 4, 6)])
    else if i == 13 then BaseCase([1, 2, 4, 7], [Stencil(0, 1, 1, 5, 1, 3), Stencil(0, 2, 2, 3, 2, 6), Stencil(4, 5, 0, 4, 4, 6), Stencil(5, 7, 6, 7, 3, 7)])
    else if i == 14 then BaseCase([1, 2, 3, 6], [Stencil(0, 2, 0, 1, 4, 6), Stencil(0, 1, 3, 7, 4, 6), Stencil(0, 1, 1, 5, 3, 7), Stencil(4, 6, 3, 7, 6, 7)])
    else if i == 15 then BaseCase([0, 2, 3, 5, 6], [Stencil(0, 1, 4, 6, 0, 4), Stencil(0, 1, 6, 7, 4, 6), Stencil(0, 1, 1, 3, 6, 7), Stencil(1, 3, 3, 7, 6, 7), Stencil(5, 7, 1, 5, 4, 5)])
    else if i == 16 then BaseCase([2, 3, 4, 5, 6], [Stencil(5, 7, 1, 5, 0, 4), Stencil(0, 4, 6, 7, 5, 7), Stencil(0, 2, 6, 7, 0, 4), Stencil(0, 2, 3, 7, 6, 7), Stencil(0, 2, 1, 3, 3, 7)])
    else if i == 17 then BaseCase([0, 4, 5, 6, 7], [Stencil(1, 5, 0, 1, 0, 2), Stencil(0, 2, 2, 6, 1, 5), Stencil(1, 5, 2, 6, 3, 7)])
    else if i == 18 then BaseCase([1, 2, 3, 4, 5, 6], [Stencil(0, 2, 0, 1, 0, 4), Stencil(3, 7, 6, 7, 5, 7)])
    else if i == 19 then BaseCase([1, 2, 3, 4, 6, 7], [Stencil(0, 2, 4, 5, 0, 4), Stencil(0, 2, 5, 7, 4, 5), Stencil(0, 2, 1, 5, 5, 7), Stencil(0, 1, 1, 5, 0, 2)])
    else if i == 20 then BaseCase([2, 3, 4, 5, 6, 7], [Stencil(1, 5, 0, 4, 0, 2), Stencil(1, 3, 1, 5, 0, 2)])
    else if i == 21 then BaseCase([1, 2, 3, 4, 5, 6, 7], [Stencil(0, 2, 0, 1, 0, 4)])
    else BaseCase([0, 1, 2, 3, 4, 5, 6, 7], [])
  }

  /** baseTriangleTable in source order. */
  const BaseTable: seq<BaseCase> := seq(23, i => BaseCaseAt(i))

  /* ---------------- the construction ---------------- */

  /** A mask used as a map key. */
  datatype Key = Key(mask: Mask)

  /** The entries a lookup table has filled so far. */
  type Table = map<Key, seq<Stencil>>

  /** The inner loop over a base case's triangles: rotate each one. */
  function RotateAll(r: Rotation, ts: seq<Stencil>): (res: seq<Stencil>)
    ensures |res| == |ts|
    ensures forall i :: 0 <= i < |ts| ==> res[i] == ApplyTriangle(r, ts[i])
  {
    seq(|ts|, i requires 0 <= i < |ts| => ApplyTriangle(r, ts[i]))
  }

  /** The masks of the rotations of one base case, in loop order. */
  function RotatedKeys(b: BaseCase, rots: seq<Rotation>): (ks: seq<Mask>)
    ensures |ks| == |rots|
  {
    seq(|rots|, j requires 0 <= j < |rots| => ApplyIntersections(rots[j], BaseMask(b)))
  }

  /** The rotated triangle lists of one base case, in loop order. */
  function RotatedTris(b: BaseCase, rots: seq<Rotation>): (vs: seq<seq<Stencil>>)
    ensures |vs| == |rots|
  {
    seq(|rots|, j requires 0 <= j < |rots| => RotateAll(rots[j], b.tris))
  }

  /** The keys and values the two nested loops visit: row b holds the
      rotations of bases[b]. */
  function AllKeys(bases: seq<BaseCase>, rots: seq<Rotation>): (kss: seq<seq<Mask>>)
    ensures |kss| == |bases| && forall b :: 0 <= b < |bases| ==> |kss[b]| == |rots|
  {
    seq(|bases|, b requires 0 <= b < |bases| => RotatedKeys(bases[b], rots))
  }

  function AllTris(bases: seq<BaseCase>, rots: seq<Rotation>): (vss: seq<seq<seq<Stencil>>>)
    ensures |vss| == |bases| && forall b :: 0 <= b < |bases| ==> |vss[b]| == |rots|
  {
    seq(|bases|, b requires 0 <= b < |bases| => RotatedTris(bases[b], rots))
  }

  /** Rows and values line up. */
  predicate Aligned(kss: seq<seq<Mask>>, vss: seq<seq<seq<Stencil>>>)
  {
    |kss| == |vss| && forall b :: 0 <= b < |kss| ==> |kss[b]| == |vss[b]|
  }

  /** The inner loop over the first n entries of one row: a key that is
      already present keeps the entry it has. */
  function AddRow(acc: Table, keys: seq<Mask>, vals: seq<seq<Stencil>>, n: nat): Table
    requires n <= |keys| == |vals|
  {
    if n == 0 then acc
    else
      var prev := AddRow(acc, keys, vals, n - 1);
      if Key(keys[n - 1]) in prev then prev else prev[Key(keys[n - 1]) := vals[n - 1]]
  }

  /** The outer loop over the first n rows. */
  function AddRows(kss: seq<seq<Mask>>, vss: seq<seq<seq<Stencil>>>, n: nat): Table
    requires Aligned(kss, vss) && n <= |kss|
  {
    if n == 0 then map[]
    else AddRow(AddRows(kss, vss, n - 1), kss[n - 1], vss[n - 1], |kss[n - 1]|)
  }

  /** mcLookupTable: entry k of the 256-entry array the map is copied
      into, where a mask that is not a key gets the empty list. The bases
      are the entries of baseTriangleTable in whatever order the map
      iteration yields them. */
  function Lookup(bases: seq<BaseCase>, rots: seq<Rotation>, k: Mask): seq<Stencil>
  {
    var m := AddRows(AllKeys(bases, rots), AllTris(bases, rots), |bases|);
    if Key(k) in m then m[Key(k)] else []
  }

  /* ---------------- first insertion wins ---------------- */

  /** Entry j of row b is the first occurrence of k in loop order. */
  predicate FirstAt(kss: seq<seq<Mask>>, b: int, j: int, k: Mask)
  {
    0 <= b < |kss| && 0 <= j < |kss[b]| && kss[b][j] == k
    && (forall b', j' :: 0 <= b' < b && 0 <= j' < |kss[b']| ==> kss[b'][j'] != k)
    && (forall j' :: 0 <= j' < j ==> kss[b][j'] != k)
  }

  lemma {:induction false} AddRowKeeps(acc: Table, keys: seq<Mask>, vals: seq<seq<Stencil>>, n: nat, k: Mask)
    requires n <= |keys| == |vals| && Key(k) in acc
    ensures Key(k) in AddRow(acc, keys, vals, n)
    ensures AddRow(acc, keys, vals, n)[Key(k)] == acc[Key(k)]
  {
    if n > 0 {
      AddRowKeeps(acc, keys, vals, n - 1, k);
    }
  }

  lemma {:induction false} AddRowFirst(acc: Table, keys: seq<Mask>, vals: seq<seq<Stencil>>, n: nat, j: nat)
    requires j < n <= |keys| == |vals| && Key(keys[j]) !in acc
    requires forall j' :: 0 <= j' < j ==> keys[j'] != keys[j]
    ensures Key(keys[j]) in AddRow(acc, keys, vals, n)
    ensures AddRow(acc, keys, vals, n)[Key(keys[j])] == vals[j]
  {
    if j < n - 1 {
      AddRowFirst(acc, keys, vals, n - 1, j);
    } else {
      AddRowMiss(acc, keys, vals, n - 1, keys[j]);
    }
  }

  lemma {:induction false} AddRowMiss(acc: Table, keys: seq<Mask>, vals: seq<seq<Stencil>>, n: nat, k: Mask)
    requires n <= |keys| == |vals| && Key(k) !in acc
    requires forall j' :: 0 <= j' < n ==> keys[j'] != k
    ensures Key(k) !in AddRow(acc, keys, vals, n)
  {
    if n > 0 {
      AddRowMiss(acc, keys, vals, n - 1, k);
    }
  }

  lemma {:induction false} AddRowsFirst(kss: seq<seq<Mask>>, vss: seq<seq<seq<Stencil>>>, n: nat, b: int, j: int, k: Mask)
    requires Aligned(kss, vss) && n <= |kss| && b < n
    requires FirstAt(kss, b, j, k)
    ensures Key(k) in AddRows(kss, vss, n)
    ensures AddRows(kss, vss, n)[Key(k)] == vss[b][j]
  {
    if b < n - 1 {
      AddRowsFirst(kss, vss, n - 1, b, j, k);
      AddRowKeeps(AddRows(kss, vss, n - 1), kss[n - 1], vss[n - 1], |kss[n - 1]|, k);
    } else {
      AddRowsMiss(kss, vss, n - 1, k);
      AddRowFirst(AddRows(kss, vss, n - 1), kss[b], vss[b], |kss[b]|, j);
    }
  }

  lemma {:induction false} AddRowsMiss(kss: seq<seq<Mask>>, vss: seq<seq<seq<Stencil>>>, n: nat, k: Mask)
    requires Aligned(kss, vss) && n <= |kss|
    requires forall b, j :: 0 <= b < n && 0 <= j < |kss[b]| ==> kss[b][j] != k
    ensures Key(k) !in AddRows(kss, vss, n)
  {
    if n > 0 {
      AddRowsMiss(kss, vss, n - 1, k);
      AddRowMiss(AddRows(kss, vss, n - 1), kss[n - 1], vss[n - 1], |kss[n - 1]|, k);
    }
  }

  /** Whenever k occurs, a first occurrence exists. */
  lemma FirstExists(kss: seq<seq<Mask>>, b: int, j: int, k: Mask) returns (b0: int, j0: int)
    requires 0 <= b < |kss| && 0 <= j < |kss[b]| && kss[b][j] == k
    ensures FirstAt(kss, b0, j0, k)
  {
    b0 := 0;
    while !(exists j' :: 0 <= j' < |kss[b0]| && kss[b0][j'] == k)
      invariant 0 <= b0 <= b
      invariant forall b', j' :: 0 <= b' < b0 && 0 <= j' < |kss[b']| ==> kss[b'][j'] != k
      decreases b - b0
    {
      b0 := b0 + 1;
    }
    j0 := 0;
    while kss[b0][j0] != k
      invariant 0 <= j0 < |kss[b0]|
      invariant exists j' :: j0 <= j' < |kss[b0]| && kss[b0][j'] == k
      invariant forall j' :: 0 <= j' < j0 ==> kss[b0][j'] != k
      decreases |kss[b0]| - j0
    {
      j0 := j0 + 1;
    }
  }

  /* ---------------- what the construction computes ---------------- */

  /** Rotation j of base case b has mask k. */
  predicate Hit(bases: seq<BaseCase>, rots: seq<Rotation>, b: int, j: int, k: Mask)
  {
    0 <= b < |bases| && 0 <= j < |rots| && ApplyIntersections(rots[j], BaseMask(bases[b])) == k
  }

  /** (b, j) is the first pair in loop order whose rotated mask is k. */
  predicate FirstHit(bases: seq<BaseCase>, rots: seq<Rotation>, b: int, j: int, k: Mask)
  {
    Hit(bases, rots, b, j, k)
    && (forall b', j' :: 0 <= b' < b && 0 <= j' < |rots| ==> !Hit(bases, rots, b', j', k))
    && (forall j' :: 0 <= j' < j ==> !Hit(bases, rots, b, j', k))
  }

  lemma KeysAt(bases: seq<BaseCase>, rots: seq<Rotation>, b: int, j: int)
    requires 0 <= b < |bases| && 0 <= j < |rots|
    ensures AllKeys(bases, rots)[b][j] == ApplyIntersections(rots[j], BaseMask(bases[b]))
    ensures AllTris(bases, rots)[b][j] == RotateAll(rots[j], bases[b].tris)
  {
  }

  lemma FirstHitIsFirstAt(bases: seq<BaseCase>, rots: seq<Rotation>, b: int, j: int, k: Mask)
    requires FirstHit(bases, rots, b, j, k)
    ensures FirstAt(AllKeys(bases, rots), b, j, k)
  {
    var kss := AllKeys(bases, rots);
    KeysAt(bases, rots, b, j);
    forall b', j' | 0 <= b' < b && 0 <= j' < |kss[b']| ensures kss[b'][j'] != k {
      KeysAt(bases, rots, b', j');
      assert !Hit(bases, rots, b', j', k);
    }
    forall j' | 0 <= j' < j ensures kss[b][j'] != k {
      KeysAt(bases, rots, b, j');
      assert !Hit(bases, rots, b, j', k);
    }
  }

  /** The entry for k is the first-found rotation of the first base case
      whose rotated mask is k. */
  lemma LookupFirst(bases: seq<BaseCase>, rots: seq<Rotation>, b: int, j: int, k: Mask)
    requires FirstHit(bases, rots, b, j, k)
    ensures Lookup(bases, rots, k) == RotateAll(rots[j], bases[b].tris)
  {
    FirstHitIsFirstAt(bases, rots, b, j, k);
    AddRowsFirst(AllKeys(bases, rots), AllTris(bases, rots), |bases|, b, j, k);
    KeysAt(bases, rots, b, j);
  }

  /** A mask no rotation of any base case reaches keeps the empty list. */
  lemma LookupMiss(bases: seq<BaseCase>, rots: seq<Rotation>, k: Mask)
    requires forall b, j :: 0 <= b < |bases| && 0 <= j < |rots| ==> !Hit(bases, rots, b, j, k)
    ensures Lookup(bases, rots, k) == []
  {
    var kss := AllKeys(bases, rots);
    forall b, j | 0 <= b < |bases| && 0 <= j < |kss[b]| ensures kss[b][j] != k {
      KeysAt(bases, rots, b, j);
      assert !Hit(bases, rots, b, j, k);
    }
    AddRowsMiss(kss, AllTris(bases, rots), |bases|, k);
  }

  /** Whenever some rotation of some base case has mask k, a first one exists. */
  lemma FirstHitExists(bases: seq<BaseCase>, rots: seq<Rotation>, b: int, j: int, k: Mask)
    returns (b0: int, j0: int)
    requires Hit(bases, rots, b, j, k)
    ensures FirstHit(bases, rots, b0, j0, k)
  {
    var kss := AllKeys(bases, rots);
    KeysAt(bases, rots, b, j);
    b0, j0 := FirstExists(kss, b, j, k);
    KeysAt(bases, rots, b0, j0);
    forall b', j' | 0 <= b' < b0 && 0 <= j' < |rots| ensures !Hit(bases, rots, b', j', k) {
      KeysAt(bases, rots, b', j');
    }
    forall j' | 0 <= j' < j0 ensures !Hit(bases, rots, b0, j', k) {
      KeysAt(bases, rots, b0, j');
    }
  }

  /* ---------------- facts about the source's table ---------------- */

  /** The key of each entry of baseTriangleTable, written out. */
  function MaskLit(b: int): Mask
  {
    if b == 0 then 0x00
    else if b == 1 then 0x01
    else if b == 2 then 0x03
    else if b == 3 then 0x21
    else if b == 4 then 0x81
    else if b == 5 then 0x0e
    else if b == 6 then 0x83
    else if b == 7 then 0x92
    else if b == 8 then 0x0f
    else if b == 9 then 0x4d
    else if b == 10 then 0x66
    else if b == 11 then 0x8d
    else if b == 12 then 0x1e
    else if b == 13 then 0x96
    else if b == 14 then 0x4e
    else if b == 15 then 0x6d
    else if b == 16 then 0x7c
    else if b == 17 then 0xf1
    else if b == 18 then 0x7e
    else if b == 19 then 0xde
    else if b == 20 then 0xfc
    else if b == 21 then 0xfe
    else 0xff
  }

  lemma BaseMasks0()
    ensures BaseMask(BaseTable[0]) == 0x00
    ensures BaseMask(BaseTable[1]) == 0x01
  {
  }

  lemma BaseMasks1()
    ensures BaseMask(BaseTable[2]) == 0x03
    ensures BaseMask(BaseTable[3]) == 0x21
  {
  }

  lemma BaseMasks2()
    ensures BaseMask(BaseTable[4]) == 0x81
    ensures BaseMask(BaseTable[5]) == 0x0e
  {
  }

  lemma BaseMasks3()
    ensures BaseMask(BaseTable[6]) == 0x83
    ensures BaseMask(BaseTable[7]) == 0x92
  {
  }

  lemma BaseMasks4()
    ensures BaseMask(BaseTable[8]) == 0x0f
    ensures BaseMask(BaseTable[9]) == 0x4d
  {
  }

  lemma BaseMasks5()
    ensures BaseMask(BaseTable[10]) == 0x66
    ensures BaseMask(BaseTable[11]) == 0x8d
  {
  }

  lemma BaseMasks6()
    ensures BaseMask(BaseTable[12]) == 0x1e
    ensures BaseMask(BaseTable[13]) == 0x96
  {
  }

  lemma BaseMasks7()
    ensures BaseMask(BaseTable[14]) == 0x4e
    ensures BaseMask(BaseTable[15]) == 0x6d
  {
  }

  lemma BaseMasks8()
    ensures BaseMask(BaseTable[16]) == 0x7c
    ensures BaseMask(BaseTable[17]) == 0xf1
  {
  }

  lemma BaseMasks9()
    ensures BaseMask(BaseTable[18]) == 0x7e
    ensures BaseMask(BaseTable[19]) == 0xde
  {
  }

  lemma BaseMasks10()
    ensures BaseMask(BaseTable[20]) == 0xfc
    ensures BaseMask(BaseTable[21]) == 0xfe
  {
  }

  lemma BaseMasks11()
    ensures BaseMask(BaseTable[22]) == 0xff
  {
  }

  /** The keys of baseTriangleTable: newMcIntersections of each corner list. */
  lemma BaseMaskIsLit(b: int)
    requires 0 <= b < |BaseTable|
    ensures BaseMask(BaseTable[b]) == MaskLit(b)
  {
    if b == 0 {
      BaseMasks0();
    } else if b == 1 {
      BaseMasks0();
    } else if b == 2 {
      BaseMasks1();
    } else if b == 3 {
      BaseMasks1();
    } else if b == 4 {
      BaseMasks2();
    } else if b == 5 {
      BaseMasks2();
    } else if b == 6 {
      BaseMasks3();
    } else if b == 7 {
      BaseMasks3();
    } else if b == 8 {
      BaseMasks4();
    } else if b == 9 {
      BaseMasks4();
    } else if b == 10 {
      BaseMasks5();
    } else if b == 11 {
      BaseMasks5();
    } else if b == 12 {
      BaseMasks6();
    } else if b == 13 {
      BaseMasks6();
    } else if b == 14 {
      BaseMasks7();
    } else if b == 15 {
      BaseMasks7();
    } else if b == 16 {
      BaseMasks8();
    } else if b == 17 {
      BaseMasks8();
    } else if b == 18 {
      BaseMasks9();
    } else if b == 19 {
      BaseMasks9();
    } else if b == 20 {
      BaseMasks10();
    } else if b == 21 {
      BaseMasks10();
    } else {
      BaseMasks11();
    }
  }

  /** ApplyIntersections with its eight steps written out. */
  function ApplyFlat(r: Rotation, i: Mask): Mask
  {
    Moved(r, i, 0) | (Moved(r, i, 1) | (Moved(r, i, 2) | (Moved(r, i, 3)
    | (Moved(r, i, 4) | (Moved(r, i, 5) | (Moved(r, i, 6) | (Moved(r, i, 7) | 0)))))))
  }

  lemma ApplyFlatIsApply(r: Rotation, i: Mask)
    ensures ApplyIntersections(r, i) == ApplyFlat(r, i)
  {
  }

  /** A witness written with the constants spelled out is a hit. */
  lemma Witness(b: int, j: int, k: Mask)
    requires 0 <= b < |BaseTable| && 0 <= j < |Expected|
    requires ApplyFlat(ExpectedEntry(j), MaskLit(b)) == k
    ensures Hit(BaseTable, Expected, b, j, k)
  {
    BaseMaskIsLit(b);
    ApplyFlatIsApply(ExpectedEntry(j), MaskLit(b));
  }

  /** Every mask is a rotation of some base case. */
  lemma Covered(k: Mask) returns (b: int, j: int)
    ensures Hit(BaseTable, Expected, b, j, k)
  {
    if k < 0x04 {
      b, j := Covered0(k);
    } else if k < 0x08 {
      b, j := Covered1(k);
    } else if k < 0x0c {
      b, j := Covered2(k);
    } else if k < 0x10 {
      b, j := Covered3(k);
    } else if k < 0x14 {
      b, j := Covered4(k);
    } else if k < 0x18 {
      b, j := Covered5(k);
    } else if k < 0x1c {
      b, j := Covered6(k);
    } else if k < 0x20 {
      b, j := Covered7(k);
    } else if k < 0x24 {
      b, j := Covered8(k);
    } else if k < 0x28 {
      b, j := Covered9(k);
    } else if k < 0x2c {
      b, j := Covered10(k);
    } else if k < 0x30 {
      b, j := Covered11(k);
    } else if k < 0x34 {
      b, j := Covered12(k);
    } else if k < 0x38 {
      b, j := Covered13(k);
    } else if k < 0x3c {
      b, j := Covered14(k);
    } else if k < 0x40 {
      b, j := Covered15(k);
    } else if k < 0x44 {
      b, j := Covered16(k);
    } else if k < 0x48 {
      b, j := Covered17(k);
    } else if k < 0x4c {
      b, j := Covered18(k);
    } else if k < 0x50 {
      b, j := Covered19(k);
    } else if k < 0x54 {
      b, j := Covered20(k);
    } else if k < 0x58 {
      b, j := Covered21(k);
    } else if k < 0x5c {
      b, j := Covered22(k);
    } else if k < 0x60 {
      b, j := Covered23(k);
    } else if k < 0x64 {
      b, j := Covered24(k);
    } else if k < 0x68 {
      b, j := Covered25(k);
    } else if k < 0x6c {
      b, j := Covered26(k);
    } else if k < 0x70 {
      b, j := Covered27(k);
    } else if k < 0x74 {
      b, j := Covered28(k);
    } else if k < 0x78 {
      b, j := Covered29(k);
    } else if k < 0x7c {
      b, j := Covered30(k);
    } else if k < 0x80 {
      b, j := Covered31(k);
    } else if k < 0x84 {
      b, j := Covered32(k);
    } else if k < 0x88 {
      b, j := Covered33(k);
    } else if k < 0x8c {
      b, j := Covered34(k);
    } else if k < 0x90 {
      b, j := Covered35(k);
    } else if k < 0x94 {
      b, j := Covered36(k);
    } else if k < 0x98 {
      b, j := Covered37(k);
    } else if k < 0x9c {
      b, j := Covered38(k);
    } else if k < 0xa0 {
      b, j := Covered39(k);
    } else if k < 0xa4 {
      b, j := Covered40(k);
    } else if k < 0xa8 {
      b, j := Covered41(k);
    } else if k < 0xac {
      b, j := Covered42(k);
    } else if k < 0xb0 {
      b, j := Covered43(k);
    } else if k < 0xb4 {
      b, j := Covered44(k);
    } else if k < 0xb8 {
      b, j := Covered45(k);
    } else if k < 0xbc {
      b, j := Covered46(k);
    } else if k < 0xc0 {
      b, j := Covered47(k);
    } else if k < 0xc4 {
      b, j := Covered48(k);
    } else if k < 0xc8 {
      b, j := Covered49(k);
    } else if k < 0xcc {
      b, j := Covered50(k);
    } else if k < 0xd0 {
      b, j := Covered51(k);
    } else if k < 0xd4 {
      b, j := Covered52(k);
    } else if k < 0xd8 {
      b, j := Covered53(k);
    } else if k < 0xdc {
      b, j := Covered54(k);
    } else if k < 0xe0 {
      b, j := Covered55(k);
    } else if k < 0xe4 {
      b, j := Covered56(k);
    } else if k < 0xe8 {
      b, j := Covered57(k);
    } else if k < 0xec {
      b, j := Covered58(k);
    } else if k < 0xf0 {
      b, j := Covered59(k);
    } else if k < 0xf4 {
      b, j := Covered60(k);
    } else if k < 0xf8 {
      b, j := Covered61(k);
    } else if k < 0xfc {
      b, j := Covered62(k);
    } else {
      b, j := Covered63(k);
    }
  }

  lemma Covered0(k: Mask) returns (b: int, j: int)
    requires k < 0x04
    ensures Hit(BaseTable, Expected, b, j, k)
  {
    if k == 0x00 {
      Witness(0, 0, k);
      b, j := 0, 0;
    } else if k == 0x01 {
      Witness(1, 0, k);
      b, j := 1, 0;
    } else if k == 0x02 {
      Witness(1, 3, k);
      b, j := 1, 3;
    } else {
      Witness(2, 0, k);
      b, j := 2, 0;
    }
  }

  lemma Covered1(k: Mask) returns (b: int, j: int)
    requires 0x04 <= k < 0x08
    ensures Hit(BaseTable, Expected, b, j, k)
  {
    if k == 0x04 {
      Witness(1, 6, k);
      b, j := 1, 6;
    } else if k == 0x05 {
      Witness(2, 1, k);
      b, j := 2, 1;
    } else if k == 0x06 {
      Witness(3, 3, k);
      b, j := 3, 3;
    } else {
      Witness(5, 10, k);
      b, j := 5, 10;
    }
  }

  lemma Covered2(k: Mask) returns (b: int, j: int)
    requires 0x08 <= k < 0x0c
    ensures Hit(BaseTable, Expected, b, j, k)
  {
    if k == 0x08 {
      Witness(1, 9, k);
      b, j := 1, 9;
    } else if k == 0x09 {
      Witness(3, 1, k);
      b, j := 3, 1;
    } else if k == 0x0a {
      Witness(2, 4, k);
      b, j := 2, 4;
    } else {
      Witness(5, 6, k);
      b, j := 5, 6;
    }
  }

  lemma Covered3(k: Mask) returns (b: int, j: int)
    requires 0x0c <= k < 0x10
    ensures Hit(BaseTable, Expected, b, j, k)
  {
    if k == 0x0c {
      Witness(2, 7, k);
      b, j := 2, 7;
    } else if k == 0x0d {
      Witness(5, 4, k);
      b, j := 5, 4;
    } else if k == 0x0e {
      Witness(5, 0, k);
      b, j := 5, 0;
    } else {
      Witness(8, 0, k);
      b, j := 8, 0;
    }
  }

  lemma Covered4(k: Mask) returns (b: int, j: int)
    requires 0x10 <= k < 0x14
    ensures Hit(BaseTable, Expected, b, j, k)
  {
    if k == 0x10 {
      Witness(1, 12, k);
      b, j := 1, 12;
    } else if k == 0x11 {
      Witness(2, 2, k);
      b, j := 2, 2;
    } else if k == 0x12 {
      Witness(3, 5, k);
      b, j := 3, 5;
    } else {
      Witness(5, 15, k);
      b, j := 5, 15;
    }
  }

  lemma Covered5(k: Mask) returns (b: int, j: int)
    requires 0x14 <= k < 0x18
    ensures Hit(BaseTable, Expected, b, j, k)
  {
    if k == 0x14 {
      Witness(3, 6, k);
      b, j := 3, 6;
    } else if k == 0x15 {
      Witness(5, 19, k);
      b, j := 5, 19;
    } else if k == 0x16 {
      Witness(7, 9, k);
      b, j := 7, 9;
    } else {
      Witness(9, 4, k);
      b, j := 9, 4;
    }
  }

  lemma Covered6(k: Mask) returns (b: int, j: int)
    requires 0x18 <= k < 0x1c
    ensures Hit(BaseTable, Expected, b, j, k)
  {
    if k == 0x18 {
      Witness(4, 9, k);
      b, j := 4, 9;
    } else if k == 0x19 {
      Witness(6, 12, k);
      b, j := 6, 12;
    } else if k == 0x1a {
      Witness(6, 9, k);
      b, j := 6, 9;
    } else {
      Witness(11, 10, k);
      b, j := 11, 10;
    }
  }

  lemma Covered7(k: Mask) returns (b: int, j: int)
    requires 0x1c <= k < 0x20
    ensures Hit(BaseTable, Expected, b, j, k)
  {
    if k == 0x1c {
      Witness(6, 10, k);
      b, j := 6, 10;
    } else if k == 0x1d {
      Witness(14, 4, k);
      b, j := 14, 4;
    } else if k == 0x1e {
      Witness(12, 0, k);
      b, j := 12, 0;
    } else {
      Witness(17, 14, k);
      b, j := 17, 14;
    }
  }

  lemma Covered8(k: Mask) returns (b: int, j: int)
    requires 0x20 <= k < 0x24
    ensures Hit(BaseTable, Expected, b, j, k)
  {
    if k == 0x20 {
      Witness(1, 15, k);
      b, j := 1, 15;
    } else if k == 0x21 {
      Witness(3, 0, k);
      b, j := 3, 0;
    } else if k == 0x22 {
      Witness(2, 5, k);
      b, j := 2, 5;
    } else {
      Witness(5, 13, k);
      b, j := 5, 13;
    }
  }

  lemma Covered9(k: Mask) returns (b: int, j: int)
    requires 0x24 <= k < 0x28
    ensures Hit(BaseTable, Expected, b, j, k)
  {
    if k == 0x24 {
      Witness(4, 6, k);
      b, j := 4, 6;
    } else if k == 0x25 {
      Witness(6, 6, k);
      b, j := 6, 6;
    } else if k == 0x26 {
      Witness(6, 15, k);
      b, j := 6, 15;
    } else {
      Witness(14, 10, k);
      b, j := 14, 10;
    }
  }

  lemma Covered10(k: Mask) returns (b: int, j: int)
    requires 0x28 <= k < 0x2c
    ensures Hit(BaseTable, Expected, b, j, k)
  {
    if k == 0x28 {
      Witness(3, 11, k);
      b, j := 3, 11;
    } else if k == 0x29 {
      Witness(7, 7, k);
      b, j := 7, 7;
    } else if k == 0x2a {
      Witness(5, 21, k);
      b, j := 5, 21;
    } else {
      Witness(9, 2, k);
      b, j := 9, 2;
    }
  }

  lemma Covered11(k: Mask) returns (b: int, j: int)
    requires 0x2c <= k < 0x30
    ensures Hit(BaseTable, Expected, b, j, k)
  {
    if k == 0x2c {
      Witness(6, 7, k);
      b, j := 6, 7;
    } else if k == 0x2d {
      Witness(12, 4, k);
      b, j := 12, 4;
    } else if k == 0x2e {
      Witness(11, 6, k);
      b, j := 11, 6;
    } else {
      Witness(17, 16, k);
      b, j := 17, 16;
    }
  }

  lemma Covered12(k: Mask) returns (b: int, j: int)
    requires 0x30 <= k < 0x34
    ensures Hit(BaseTable, Expected, b, j, k)
  {
    if k == 0x30 {
      Witness(2, 13, k);
      b, j := 2, 13;
    } else if k == 0x31 {
      Witness(5, 3, k);
      b, j := 5, 3;
    } else if k == 0x32 {
      Witness(5, 2, k);
      b, j := 5, 2;
    } else {
      Witness(8, 2, k);
      b, j := 8, 2;
    }
  }

  lemma Covered13(k: Mask) returns (b: int, j: int)
    requires 0x34 <= k < 0x38
    ensures Hit(BaseTable, Expected, b, j, k)
  {
    if k == 0x34 {
      Witness(6, 16, k);
      b, j := 6, 16;
    } else if k == 0x35 {
      Witness(11, 8, k);
      b, j := 11, 8;
    } else if k == 0x36 {
      Witness(12, 2, k);
      b, j := 12, 2;
    } else {
      Witness(17, 7, k);
      b, j := 17, 7;
    }
  }

  lemma Covered14(k: Mask) returns (b: int, j: int)
    requires 0x38 <= k < 0x3c
    ensures Hit(BaseTable, Expected, b, j, k)
  {
    if k == 0x38 {
      Witness(6, 13, k);
      b, j := 6, 13;
    } else if k == 0x39 {
      Witness(12, 3, k);
      b, j := 12, 3;
    } else if k == 0x3a {
      Witness(14, 2, k);
      b, j := 14, 2;
    } else {
      Witness(17, 11, k);
      b, j := 17, 11;
    }
  }

  lemma Covered15(k: Mask) returns (b: int, j: int)
    requires 0x3c <= k < 0x40
    ensures Hit(BaseTable, Expected, b, j, k)
  {
    if k == 0x3c {
      Witness(10, 1, k);
      b, j := 10, 1;
    } else if k == 0x3d {
      Witness(16, 20, k);
      b, j := 16, 20;
    } else if k == 0x3e {
      Witness(16, 23, k);
      b, j := 16, 23;
    } else {
      Witness(20, 20, k);
      b, j := 20, 20;
    }
  }

  lemma Covered16(k: Mask) returns (b: int, j: int)
    requires 0x40 <= k < 0x44
    ensures Hit(BaseTable, Expected, b, j, k)
  {
    if k == 0x40 {
      Witness(1, 18, k);
      b, j := 1, 18;
    } else if k == 0x41 {
      Witness(3, 2, k);
      b, j := 3, 2;
    } else if k == 0x42 {
      Witness(4, 3, k);
      b, j := 4, 3;
    } else {
      Witness(6, 3, k);
      b, j := 6, 3;
    }
  }

  lemma Covered17(k: Mask) returns (b: int, j: int)
    requires 0x44 <= k < 0x48
    ensures Hit(BaseTable, Expected, b, j, k)
  {
    if k == 0x44 {
      Witness(2, 8, k);
      b, j := 2, 8;
    } else if k == 0x45 {
      Witness(5, 12, k);
      b, j := 5, 12;
    } else if k == 0x46 {
      Witness(6, 18, k);
      b, j := 6, 18;
    } else {
      Witness(11, 4, k);
      b, j := 11, 4;
    }
  }

  lemma Covered18(k: Mask) returns (b: int, j: int)
    requires 0x48 <= k < 0x4c
    ensures Hit(BaseTable, Expected, b, j, k)
  {
    if k == 0x48 {
      Witness(3, 10, k);
      b, j := 3, 10;
    } else if k == 0x49 {
      Witness(7, 3, k);
      b, j := 7, 3;
    } else if k == 0x4a {
      Witness(6, 4, k);
      b, j := 6, 4;
    } else {
      Witness(12, 6, k);
      b, j := 12, 6;
    }
  }

  lemma Covered19(k: Mask) returns (b: int, j: int)
    requires 0x4c <= k < 0x50
    ensures Hit(BaseTable, Expected, b, j, k)
  {
    if k == 0x4c {
      Witness(5, 23, k);
      b, j := 5, 23;
    } else if k == 0x4d {
      Witness(9, 0, k);
      b, j := 9, 0;
    } else if k == 0x4e {
      Witness(14, 0, k);
      b, j := 14, 0;
    } else {
      Witness(17, 20, k);
      b, j := 17, 20;
    }
  }

  lemma Covered20(k: Mask) returns (b: int, j: int)
    requires 0x50 <= k < 0x54
    ensures Hit(BaseTable, Expected, b, j, k)
  {
    if k == 0x50 {
      Witness(2, 14, k);
      b, j := 2, 14;
    } else if k == 0x51 {
      Witness(5, 8, k);
      b, j := 5, 8;
    } else if k == 0x52 {
      Witness(6, 19, k);
      b, j := 6, 19;
    } else {
      Witness(14, 8, k);
      b, j := 14, 8;
    }
  }

  lemma Covered21(k: Mask) returns (b: int, j: int)
    requires 0x54 <= k < 0x58
    ensures Hit(BaseTable, Expected, b, j, k)
  {
    if k == 0x54 {
      Witness(5, 1, k);
      b, j := 5, 1;
    } else if k == 0x55 {
      Witness(8, 1, k);
      b, j := 8, 1;
    } else if k == 0x56 {
      Witness(12, 1, k);
      b, j := 12, 1;
    } else {
      Witness(17, 5, k);
      b, j := 17, 5;
    }
  }

  lemma Covered22(k: Mask) returns (b: int, j: int)
    requires 0x58 <= k < 0x5c
    ensures Hit(BaseTable, Expected, b, j, k)
  {
    if k == 0x58 {
      Witness(6, 14, k);
      b, j := 6, 14;
    } else if k == 0x59 {
      Witness(12, 8, k);
      b, j := 12, 8;
    } else if k == 0x5a {
      Witness(10, 2, k);
      b, j := 10, 2;
    } else {
      Witness(16, 17, k);
      b, j := 16, 17;
    }
  }

  lemma Covered23(k: Mask) returns (b: int, j: int)
    requires 0x5c <= k < 0x60
    ensures Hit(BaseTable, Expected, b, j, k)
  {
    if k == 0x5c {
      Witness(11, 11, k);
      b, j := 11, 11;
    } else if k == 0x5d {
      Witness(17, 9, k);
      b, j := 17, 9;
    } else if k == 0x5e {
      Witness(16, 22, k);
      b, j := 16, 22;
    } else {
      Witness(20, 17, k);
      b, j := 20, 17;
    }
  }

  lemma Covered24(k: Mask) returns (b: int, j: int)
    requires 0x60 <= k < 0x64
    ensures Hit(BaseTable, Expected, b, j, k)
  {
    if k == 0x60 {
      Witness(3, 17, k);
      b, j := 3, 17;
    } else if k == 0x61 {
      Witness(7, 5, k);
      b, j := 7, 5;
    } else if k == 0x62 {
      Witness(6, 5, k);
      b, j := 6, 5;
    } else {
      Witness(12, 13, k);
      b, j := 12, 13;
    }
  }

  lemma Covered25(k: Mask) returns (b: int, j: int)
    requires 0x64 <= k < 0x68
    ensures Hit(BaseTable, Expected, b, j, k)
  {
    if k == 0x64 {
      Witness(6, 8, k);
      b, j := 6, 8;
    } else if k == 0x65 {
      Witness(12, 12, k);
      b, j := 12, 12;
    } else if k == 0x66 {
      Witness(10, 0, k);
      b, j := 10, 0;
    } else {
      Witness(16, 11, k);
      b, j := 16, 11;
    }
  }

  lemma Covered26(k: Mask) returns (b: int, j: int)
    requires 0x68 <= k < 0x6c
    ensures Hit(BaseTable, Expected, b, j, k)
  {
    if k == 0x68 {
      Witness(7, 4, k);
      b, j := 7, 4;
    } else if k == 0x69 {
      Witness(13, 3, k);
      b, j := 13, 3;
    } else if k == 0x6a {
      Witness(12, 21, k);
      b, j := 12, 21;
    } else {
      Witness(15, 2, k);
      b, j := 15, 2;
    }
  }

  lemma Covered27(k: Mask) returns (b: int, j: int)
    requires 0x6c <= k < 0x70
    ensures Hit(BaseTable, Expected, b, j, k)
  {
    if k == 0x6c {
      Witness(12, 23, k);
      b, j := 12, 23;
    } else if k == 0x6d {
      Witness(15, 0, k);
      b, j := 15, 0;
    } else if k == 0x6e {
      Witness(16, 2, k);
      b, j := 16, 2;
    } else {
      Witness(19, 13, k);
      b, j := 19, 13;
    }
  }

  lemma Covered28(k: Mask) returns (b: int, j: int)
    requires 0x70 <= k < 0x74
    ensures Hit(BaseTable, Expected, b, j, k)
  {
    if k == 0x70 {
      Witness(5, 22, k);
      b, j := 5, 22;
    } else if k == 0x71 {
      Witness(9, 1, k);
      b, j := 9, 1;
    } else if k == 0x72 {
      Witness(11, 3, k);
      b, j := 11, 3;
    } else {
      Witness(17, 18, k);
      b, j := 17, 18;
    }
  }

  lemma Covered29(k: Mask) returns (b: int, j: int)
    requires 0x74 <= k < 0x78
    ensures Hit(BaseTable, Expected, b, j, k)
  {
    if k == 0x74 {
      Witness(14, 1, k);
      b, j := 14, 1;
    } else if k == 0x75 {
      Witness(17, 17, k);
      b, j := 17, 17;
    } else if k == 0x76 {
      Witness(16, 21, k);
      b, j := 16, 21;
    } else {
      Witness(20, 11, k);
      b, j := 20, 11;
    }
  }

  lemma Covered30(k: Mask) returns (b: int, j: int)
    requires 0x78 <= k < 0x7c
    ensures Hit(BaseTable, Expected, b, j, k)
  {
    if k == 0x78 {
      Witness(12, 22, k);
      b, j := 12, 22;
    } else if k == 0x79 {
      Witness(15, 1, k);
      b, j := 15, 1;
    } else if k == 0x7a {
      Witness(16, 1, k);
      b, j := 16, 1;
    } else {
      Witness(19, 8, k);
      b, j := 19, 8;
    }
  }

  lemma Covered31(k: Mask) returns (b: int, j: int)
    requires 0x7c <= k < 0x80
    ensures Hit(BaseTable, Expected, b, j, k)
  {
    if k == 0x7c {
      Witness(16, 0, k);
      b, j := 16, 0;
    } else if k == 0x7d {
      Witness(19, 4, k);
      b, j := 19, 4;
    } else if k == 0x7e {
      Witness(18, 0, k);
      b, j := 18, 0;
    } else {
      Witness(21, 21, k);
      b, j := 21, 21;
    }
  }

  lemma Covered32(k: Mask) returns (b: int, j: int)
    requires 0x80 <= k < 0x84
    ensures Hit(BaseTable, Expected, b, j, k)
  {
    if k == 0x80 {
      Witness(1, 21, k);
      b, j := 1, 21;
    } else if k == 0x81 {
      Witness(4, 0, k);
      b, j := 4, 0;
    } else if k == 0x82 {
      Witness(3, 4, k);
      b, j := 3, 4;
    } else {
      Witness(6, 0, k);
      b, j := 6, 0;
    }
  }

  lemma Covered33(k: Mask) returns (b: int, j: int)
    requires 0x84 <= k < 0x88
    ensures Hit(BaseTable, Expected, b, j, k)
  {
    if k == 0x84 {
      Witness(3, 8, k);
      b, j := 3, 8;
    } else if k == 0x85 {
      Witness(6, 1, k);
      b, j := 6, 1;
    } else if k == 0x86 {
      Witness(7, 1, k);
      b, j := 7, 1;
    } else {
      Witness(12, 10, k);
      b, j := 12, 10;
    }
  }

  lemma Covered34(k: Mask) returns (b: int, j: int)
    requires 0x88 <= k < 0x8c
    ensures Hit(BaseTable, Expected, b, j, k)
  {
    if k == 0x88 {
      Witness(2, 11, k);
      b, j := 2, 11;
    } else if k == 0x89 {
      Witness(6, 21, k);
      b, j := 6, 21;
    } else if k == 0x8a {
      Witness(5, 17, k);
      b, j := 5, 17;
    } else {
      Witness(14, 6, k);
      b, j := 14, 6;
    }
  }

  lemma Covered35(k: Mask) returns (b: int, j: int)
    requires 0x8c <= k < 0x90
    ensures Hit(BaseTable, Expected, b, j, k)
  {
    if k == 0x8c {
      Witness(5, 18, k);
      b, j := 5, 18;
    } else if k == 0x8d {
      Witness(11, 0, k);
      b, j := 11, 0;
    } else if k == 0x8e {
      Witness(9, 5, k);
      b, j := 9, 5;
    } else {
      Witness(17, 22, k);
      b, j := 17, 22;
    }
  }

  lemma Covered36(k: Mask) returns (b: int, j: int)
    requires 0x90 <= k < 0x94
    ensures Hit(BaseTable, Expected, b, j, k)
  {
    if k == 0x90 {
      Witness(3, 13, k);
      b, j := 3, 13;
    } else if k == 0x91 {
      Witness(6, 2, k);
      b, j := 6, 2;
    } else if k == 0x92 {
      Witness(7, 0, k);
      b, j := 7, 0;
    } else {
      Witness(12, 15, k);
      b, j := 12, 15;
    }
  }

  lemma Covered37(k: Mask) returns (b: int, j: int)
    requires 0x94 <= k < 0x98
    ensures Hit(BaseTable, Expected, b, j, k)
  {
    if k == 0x94 {
      Witness(7, 2, k);
      b, j := 7, 2;
    } else if k == 0x95 {
      Witness(12, 19, k);
      b, j := 12, 19;
    } else if k == 0x96 {
      Witness(13, 0, k);
      b, j := 13, 0;
    } else {
      Witness(15, 4, k);
      b, j := 15, 4;
    }
  }

  lemma Covered38(k: Mask) returns (b: int, j: int)
    requires 0x98 <= k < 0x9c
    ensures Hit(BaseTable, Expected, b, j, k)
  {
    if k == 0x98 {
      Witness(6, 11, k);
      b, j := 6, 11;
    } else if k == 0x99 {
      Witness(10, 4, k);
      b, j := 10, 4;
    } else if k == 0x9a {
      Witness(12, 17, k);
      b, j := 12, 17;
    } else {
      Witness(16, 8, k);
      b, j := 16, 8;
    }
  }

  lemma Covered39(k: Mask) returns (b: int, j: int)
    requires 0x9c <= k < 0xa0
    ensures Hit(BaseTable, Expected, b, j, k)
  {
    if k == 0x9c {
      Witness(12, 18, k);
      b, j := 12, 18;
    } else if k == 0x9d {
      Witness(16, 5, k);
      b, j := 16, 5;
    } else if k == 0x9e {
      Witness(15, 5, k);
      b, j := 15, 5;
    } else {
      Witness(19, 17, k);
      b, j := 19, 17;
    }
  }

  lemma Covered40(k: Mask) returns (b: int, j: int)
    requires 0xa0 <= k < 0xa4
    ensures Hit(BaseTable, Expected, b, j, k)
  {
    if k == 0xa0 {
      Witness(2, 17, k);
      b, j := 2, 17;
    } else if k == 0xa1 {
      Witness(6, 22, k);
      b, j := 6, 22;
    } else if k == 0xa2 {
      Witness(5, 9, k);
      b, j := 5, 9;
    } else {
      Witness(11, 2, k);
      b, j := 11, 2;
    }
  }

  lemma Covered41(k: Mask) returns (b: int, j: int)
    requires 0xa4 <= k < 0xa8
    ensures Hit(BaseTable, Expected, b, j, k)
  {
    if k == 0xa4 {
      Witness(6, 17, k);
      b, j := 6, 17;
    } else if k == 0xa5 {
      Witness(10, 3, k);
      b, j := 10, 3;
    } else if k == 0xa6 {
      Witness(12, 9, k);
      b, j := 12, 9;
    } else {
      Witness(16, 14, k);
      b, j := 16, 14;
    }
  }

  lemma Covered42(k: Mask) returns (b: int, j: int)
    requires 0xa8 <= k < 0xac
    ensures Hit(BaseTable, Expected, b, j, k)
  {
    if k == 0xa8 {
      Witness(5, 5, k);
      b, j := 5, 5;
    } else if k == 0xa9 {
      Witness(12, 5, k);
      b, j := 12, 5;
    } else if k == 0xaa {
      Witness(8, 5, k);
      b, j := 8, 5;
    } else {
      Witness(17, 1, k);
      b, j := 17, 1;
    }
  }

  lemma Covered43(k: Mask) returns (b: int, j: int)
    requires 0xac <= k < 0xb0
    ensures Hit(BaseTable, Expected, b, j, k)
  {
    if k == 0xac {
      Witness(14, 5, k);
      b, j := 14, 5;
    } else if k == 0xad {
      Witness(16, 19, k);
      b, j := 16, 19;
    } else if k == 0xae {
      Witness(17, 8, k);
      b, j := 17, 8;
    } else {
      Witness(20, 14, k);
      b, j := 20, 14;
    }
  }

  lemma Covered44(k: Mask) returns (b: int, j: int)
    requires 0xb0 <= k < 0xb4
    ensures Hit(BaseTable, Expected, b, j, k)
  {
    if k == 0xb0 {
      Witness(5, 20, k);
      b, j := 5, 20;
    } else if k == 0xb1 {
      Witness(14, 3, k);
      b, j := 14, 3;
    } else if k == 0xb2 {
      Witness(9, 3, k);
      b, j := 9, 3;
    } else {
      Witness(17, 23, k);
      b, j := 17, 23;
    }
  }

  lemma Covered45(k: Mask) returns (b: int, j: int)
    requires 0xb4 <= k < 0xb8
    ensures Hit(BaseTable, Expected, b, j, k)
  {
    if k == 0xb4 {
      Witness(12, 20, k);
      b, j := 12, 20;
    } else if k == 0xb5 {
      Witness(16, 4, k);
      b, j := 16, 4;
    } else if k == 0xb6 {
      Witness(15, 3, k);
      b, j := 15, 3;
    } else {
      Witness(19, 10, k);
      b, j := 19, 10;
    }
  }

  lemma Covered46(k: Mask) returns (b: int, j: int)
    requires 0xb8 <= k < 0xbc
    ensures Hit(BaseTable, Expected, b, j, k)
  {
    if k == 0xb8 {
      Witness(11, 9, k);
      b, j := 11, 9;
    } else if k == 0xb9 {
      Witness(16, 18, k);
      b, j := 16, 18;
    } else if k == 0xba {
      Witness(17, 12, k);
      b, j := 17, 12;
    } else {
      Witness(20, 8, k);
      b, j := 20, 8;
    }
  }

  lemma Covered47(k: Mask) returns (b: int, j: int)
    requires 0xbc <= k < 0xc0
    ensures Hit(BaseTable, Expected, b, j, k)
  {
    if k == 0xbc {
      Witness(16, 3, k);
      b, j := 16, 3;
    } else if k == 0xbd {
      Witness(18, 3, k);
      b, j := 18, 3;
    } else if k == 0xbe {
      Witness(19, 2, k);
      b, j := 19, 2;
    } else {
      Witness(21, 18, k);
      b, j := 21, 18;
    }
  }

  lemma Covered48(k: Mask) returns (b: int, j: int)
    requires 0xc0 <= k < 0xc4
    ensures Hit(BaseTable, Expected, b, j, k)
  {
    if k == 0xc0 {
      Witness(2, 20, k);
      b, j := 2, 20;
    } else if k == 0xc1 {
      Witness(6, 23, k);
      b, j := 6, 23;
    } else if k == 0xc2 {
      Witness(6, 20, k);
      b, j := 6, 20;
    } else {
      Witness(10, 8, k);
      b, j := 10, 8;
    }
  }

  lemma Covered49(k: Mask) returns (b: int, j: int)
    requires 0xc4 <= k < 0xc8
    ensures Hit(BaseTable, Expected, b, j, k)
  {
    if k == 0xc4 {
      Witness(5, 11, k);
      b, j := 5, 11;
    } else if k == 0xc5 {
      Witness(14, 11, k);
      b, j := 14, 11;
    } else if k == 0xc6 {
      Witness(12, 11, k);
      b, j := 12, 11;
    } else {
      Witness(16, 13, k);
      b, j := 16, 13;
    }
  }

  lemma Covered50(k: Mask) returns (b: int, j: int)
    requires 0xc8 <= k < 0xcc
    ensures Hit(BaseTable, Expected, b, j, k)
  {
    if k == 0xc8 {
      Witness(5, 7, k);
      b, j := 5, 7;
    } else if k == 0xc9 {
      Witness(12, 7, k);
      b, j := 12, 7;
    } else if k == 0xca {
      Witness(11, 5, k);
      b, j := 11, 5;
    } else {
      Witness(16, 16, k);
      b, j := 16, 16;
    }
  }

  lemma Covered51(k: Mask) returns (b: int, j: int)
    requires 0xcc <= k < 0xd0
    ensures Hit(BaseTable, Expected, b, j, k)
  {
    if k == 0xcc {
      Witness(8, 7, k);
      b, j := 8, 7;
    } else if k == 0xcd {
      Witness(17, 2, k);
      b, j := 17, 2;
    } else if k == 0xce {
      Witness(17, 3, k);
      b, j := 17, 3;
    } else {
      Witness(20, 13, k);
      b, j := 20, 13;
    }
  }

  lemma Covered52(k: Mask) returns (b: int, j: int)
    requires 0xd0 <= k < 0xd4
    ensures Hit(BaseTable, Expected, b, j, k)
  {
    if k == 0xd0 {
      Witness(5, 16, k);
      b, j := 5, 16;
    } else if k == 0xd1 {
      Witness(11, 1, k);
      b, j := 11, 1;
    } else if k == 0xd2 {
      Witness(12, 16, k);
      b, j := 12, 16;
    } else {
      Witness(16, 7, k);
      b, j := 16, 7;
    }
  }

  lemma Covered53(k: Mask) returns (b: int, j: int)
    requires 0xd4 <= k < 0xd8
    ensures Hit(BaseTable, Expected, b, j, k)
  {
    if k == 0xd4 {
      Witness(9, 7, k);
      b, j := 9, 7;
    } else if k == 0xd5 {
      Witness(17, 21, k);
      b, j := 17, 21;
    } else if k == 0xd6 {
      Witness(15, 7, k);
      b, j := 15, 7;
    } else {
      Witness(19, 11, k);
      b, j := 19, 11;
    }
  }

  lemma Covered54(k: Mask) returns (b: int, j: int)
    requires 0xd8 <= k < 0xdc
    ensures Hit(BaseTable, Expected, b, j, k)
  {
    if k == 0xd8 {
      Witness(14, 7, k);
      b, j := 14, 7;
    } else if k == 0xd9 {
      Witness(16, 15, k);
      b, j := 16, 15;
    } else if k == 0xda {
      Witness(16, 6, k);
      b, j := 16, 6;
    } else {
      Witness(18, 6, k);
      b, j := 18, 6;
    }
  }

  lemma Covered55(k: Mask) returns (b: int, j: int)
    requires 0xdc <= k < 0xe0
    ensures Hit(BaseTable, Expected, b, j, k)
  {
    if k == 0xdc {
      Witness(17, 13, k);
      b, j := 17, 13;
    } else if k == 0xdd {
      Witness(20, 5, k);
      b, j := 20, 5;
    } else if k == 0xde {
      Witness(19, 0, k);
      b, j := 19, 0;
    } else {
      Witness(21, 15, k);
      b, j := 21, 15;
    }
  }

  lemma Covered56(k: Mask) returns (b: int, j: int)
    requires 0xe0 <= k < 0xe4
    ensures Hit(BaseTable, Expected, b, j, k)
  {
    if k == 0xe0 {
      Witness(5, 14, k);
      b, j := 5, 14;
    } else if k == 0xe1 {
      Witness(12, 14, k);
      b, j := 12, 14;
    } else if k == 0xe2 {
      Witness(14, 9, k);
      b, j := 14, 9;
    } else {
      Witness(16, 10, k);
      b, j := 16, 10;
    }
  }

  lemma Covered57(k: Mask) returns (b: int, j: int)
    requires 0xe4 <= k < 0xe8
    ensures Hit(BaseTable, Expected, b, j, k)
  {
    if k == 0xe4 {
      Witness(11, 7, k);
      b, j := 11, 7;
    } else if k == 0xe5 {
      Witness(16, 9, k);
      b, j := 16, 9;
    } else if k == 0xe6 {
      Witness(16, 12, k);
      b, j := 16, 12;
    } else {
      Witness(18, 9, k);
      b, j := 18, 9;
    }
  }

  lemma Covered58(k: Mask) returns (b: int, j: int)
    requires 0xe8 <= k < 0xec
    ensures Hit(BaseTable, Expected, b, j, k)
  {
    if k == 0xe8 {
      Witness(9, 9, k);
      b, j := 9, 9;
    } else if k == 0xe9 {
      Witness(15, 9, k);
      b, j := 15, 9;
    } else if k == 0xea {
      Witness(17, 19, k);
      b, j := 17, 19;
    } else {
      Witness(19, 6, k);
      b, j := 19, 6;
    }
  }

  lemma Covered59(k: Mask) returns (b: int, j: int)
    requires 0xec <= k < 0xf0
    ensures Hit(BaseTable, Expected, b, j, k)
  {
    if k == 0xec {
      Witness(17, 15, k);
      b, j := 17, 15;
    } else if k == 0xed {
      Witness(19, 5, k);
      b, j := 19, 5;
    } else if k == 0xee {
      Witness(20, 2, k);
      b, j := 20, 2;
    } else {
      Witness(21, 12, k);
      b, j := 21, 12;
    }
  }

  lemma Covered60(k: Mask) returns (b: int, j: int)
    requires 0xf0 <= k < 0xf4
    ensures Hit(BaseTable, Expected, b, j, k)
  {
    if k == 0xf0 {
      Witness(8, 14, k);
      b, j := 8, 14;
    } else if k == 0xf1 {
      Witness(17, 0, k);
      b, j := 17, 0;
    } else if k == 0xf2 {
      Witness(17, 4, k);
      b, j := 17, 4;
    } else {
      Witness(20, 7, k);
      b, j := 20, 7;
    }
  }

  lemma Covered61(k: Mask) returns (b: int, j: int)
    requires 0xf4 <= k < 0xf8
    ensures Hit(BaseTable, Expected, b, j, k)
  {
    if k == 0xf4 {
      Witness(17, 6, k);
      b, j := 17, 6;
    } else if k == 0xf5 {
      Witness(20, 4, k);
      b, j := 20, 4;
    } else if k == 0xf6 {
      Witness(19, 1, k);
      b, j := 19, 1;
    } else {
      Witness(21, 9, k);
      b, j := 21, 9;
    }
  }

  lemma Covered62(k: Mask) returns (b: int, j: int)
    requires 0xf8 <= k < 0xfc
    ensures Hit(BaseTable, Expected, b, j, k)
  {
    if k == 0xf8 {
      Witness(17, 10, k);
      b, j := 17, 10;
    } else if k == 0xf9 {
      Witness(19, 3, k);
      b, j := 19, 3;
    } else if k == 0xfa {
      Witness(20, 1, k);
      b, j := 20, 1;
    } else {
      Witness(21, 6, k);
      b, j := 21, 6;
    }
  }

  lemma Covered63(k: Mask) returns (b: int, j: int)
    requires 0xfc <= k
    ensures Hit(BaseTable, Expected, b, j, k)
  {
    if k == 0xfc {
      Witness(20, 0, k);
      b, j := 20, 0;
    } else if k == 0xfd {
      Witness(21, 3, k);
      b, j := 21, 3;
    } else if k == 0xfe {
      Witness(21, 0, k);
      b, j := 21, 0;
    } else {
      Witness(22, 0, k);
      b, j := 22, 0;
    }
  }

  lemma BaseOnEdges0()
    ensures forall t :: t in BaseTable[0].tris ==> ListedStencil(t)
    ensures forall t :: t in BaseTable[1].tris ==> ListedStencil(t)
    ensures forall t :: t in BaseTable[2].tris ==> ListedStencil(t)
    ensures forall t :: t in BaseTable[3].tris ==> ListedStencil(t)
  {
    assert BaseTable[0] == BaseCaseAt(0);
    assert BaseTable[1] == BaseCaseAt(1);
    assert BaseTable[2] == BaseCaseAt(2);
    assert BaseTable[3] == BaseCaseAt(3);
  }

  lemma BaseOnEdges1()
    ensures forall t :: t in BaseTable[4].tris ==> ListedStencil(t)
    ensures forall t :: t in BaseTable[5].tris ==> ListedStencil(t)
    ensures forall t :: t in BaseTable[6].tris ==> ListedStencil(t)
    ensures forall t :: t in BaseTable[7].tris ==> ListedStencil(t)
  {
    assert BaseTable[4] == BaseCaseAt(4);
    assert BaseTable[5] == BaseCaseAt(5);
    assert BaseTable[6] == BaseCaseAt(6);
    assert BaseTable[7] == BaseCaseAt(7);
  }

  lemma BaseOnEdges2()
    ensures forall t :: t in BaseTable[8].tris ==> ListedStencil(t)
    ensures forall t :: t in BaseTable[9].tris ==> ListedStencil(t)
    ensures forall t :: t in BaseTable[10].tris ==> ListedStencil(t)
    ensures forall t :: t in BaseTable[11].tris ==> ListedStencil(t)
  {
    assert BaseTable[8] == BaseCaseAt(8);
    assert BaseTable[9] == BaseCaseAt(9);
    assert BaseTable[10] == BaseCaseAt(10);
    assert BaseTable[11] == BaseCaseAt(11);
  }

  lemma BaseOnEdges3()
    ensures forall t :: t in BaseTable[12].tris ==> ListedStencil(t)
    ensures forall t :: t in BaseTable[13].tris ==> ListedStencil(t)
    ensures forall t :: t in BaseTable[14].tris ==> ListedStencil(t)
    ensures forall t :: t in BaseTable[15].tris ==> ListedStencil(t)
  {
    assert BaseTable[12] == BaseCaseAt(12);
    assert BaseTable[13] == BaseCaseAt(13);
    assert BaseTable[14] == BaseCaseAt(14);
    assert BaseTable[15] == BaseCaseAt(15);
  }

  lemma BaseOnEdges4()
    ensures forall t :: t in BaseTable[16].tris ==> ListedStencil(t)
    ensures forall t :: t in BaseTable[17].tris ==> ListedStencil(t)
    ensures forall t :: t in BaseTable[18].tris ==> ListedStencil(t)
    ensures forall t :: t in BaseTable[19].tris ==> ListedStencil(t)
  {
    assert BaseTable[16] == BaseCaseAt(16);
    assert BaseTable[17] == BaseCaseAt(17);
    assert BaseTable[18] == BaseCaseAt(18);
    assert BaseTable[19] == BaseCaseAt(19);
  }

  lemma BaseOnEdges5()
    ensures forall t :: t in BaseTable[20].tris ==> ListedStencil(t)
    ensures forall t :: t in BaseTable[21].tris ==> ListedStencil(t)
    ensures forall t :: t in BaseTable[22].tris ==> ListedStencil(t)
  {
    assert BaseTable[20] == BaseCaseAt(20);
    assert BaseTable[21] == BaseCaseAt(21);
    assert BaseTable[22] == BaseCaseAt(22);
  }

  /** Every stencil of every base case is made of listed corner pairs. */
  lemma BaseListed(b: int)
    requires 0 <= b < |BaseTable|
    ensures forall t :: t in BaseTable[b].tris ==> ListedStencil(t)
  {
    match b
      case 0 => BaseOnEdges0();
      case 1 => BaseOnEdges0();
      case 2 => BaseOnEdges0();
      case 3 => BaseOnEdges0();
      case 4 => BaseOnEdges1();
      case 5 => BaseOnEdges1();
      case 6 => BaseOnEdges1();
      case 7 => BaseOnEdges1();
      case 8 => BaseOnEdges2();
      case 9 => BaseOnEdges2();
      case 10 => BaseOnEdges2();
      case 11 => BaseOnEdges2();
      case 12 => BaseOnEdges3();
      case 13 => BaseOnEdges3();
      case 14 => BaseOnEdges3();
      case 15 => BaseOnEdges3();
      case 16 => BaseOnEdges4();
      case 17 => BaseOnEdges4();
      case 18 => BaseOnEdges4();
      case 19 => BaseOnEdges4();
      case 20 => BaseOnEdges5();
      case 21 => BaseOnEdges5();
      case _ => BaseOnEdges5();
  }

  /** Every corner pair of every stencil in baseTriangleTable spans a cube edge. */
  lemma BaseTableOnEdges(b: int)
    requires 0 <= b < |BaseTable|
    ensures forall t :: t in BaseTable[b].tris ==> OnEdges(t)
  {
    BaseListed(b);
    forall t | t in BaseTable[b].tris
      ensures OnEdges(t)
    {
      ListedStencilEdges(t);
    }
  }

  /** Only the first base case is empty and only the last one is full. */
  lemma BaseMaskExtremes(b: int)
    requires 0 <= b < |BaseTable|
    ensures BaseMask(BaseTable[b]) == 0x00 ==> b == 0
    ensures BaseMask(BaseTable[b]) == 0xff ==> b == 22
  {
    BaseMaskIsLit(b);
  }

  /* ---------------- the lookup table, for any iteration order ---------------- */

  /** bases lists the entries of cases, in some order. */
  predicate SameCases(bases: seq<BaseCase>, cases: seq<BaseCase>)
  {
    (forall x :: x in bases ==> x in cases) && (forall x :: x in cases ==> x in bases)
  }

  /** Every one of the 256 masks has an entry, and it is the rotated
      triangle list of the first (base case, rotation) pair, in loop order,
      whose rotated mask is the key. */
  lemma LookupEntry(bases: seq<BaseCase>, k: Mask) returns (b: int, j: int)
    requires SameCases(bases, BaseTable)
    ensures FirstHit(bases, Expected, b, j, k)
    ensures Lookup(bases, Expected, k) == RotateAll(Expected[j], bases[b].tris)
  {
    var b1, j1 := Covered(k);
    assert BaseTable[b1] in bases;
    var b2 :| 0 <= b2 < |bases| && bases[b2] == BaseTable[b1];
    assert Hit(bases, Expected, b2, j1, k);
    b, j := FirstHitExists(bases, Expected, b2, j1, k);
    LookupFirst(bases, Expected, b, j, k);
  }

  /** A base case reached from the empty or the full mask is the empty or the full base case. */
  lemma ExtremeHit(bases: seq<BaseCase>, b: int, j: int, k: Mask) returns (b0: int)
    requires SameCases(bases, BaseTable) && Hit(bases, Expected, b, j, k) && (k == 0x00 || k == 0xff)
    ensures 0 <= b0 < |BaseTable| && bases[b] == BaseTable[b0]
    ensures k == 0x00 ==> b0 == 0
    ensures k == 0xff ==> b0 == 22
  {
    assert bases[b] in BaseTable;
    b0 :| 0 <= b0 < |BaseTable| && BaseTable[b0] == bases[b];
    ExpectedAreRotations();
    assert Expected[j] in Expected;
    if k == 0x00 {
      EmptyOnlyFromEmpty(Expected[j], BaseMask(bases[b]));
    } else {
      FullOnlyFromFull(Expected[j], BaseMask(bases[b]));
    }
    BaseMaskExtremes(b0);
  }

  /** The empty and the full base case have no triangles. */
  lemma ExtremeCasesEmpty()
    ensures BaseTable[0].tris == [] && BaseTable[22].tris == []
  {
    assert BaseTable[0] == BaseCaseAt(0);
    assert BaseTable[22] == BaseCaseAt(22);
  }

  /** The mask with no corner inside has no triangles. */
  lemma LookupEmpty(bases: seq<BaseCase>)
    requires SameCases(bases, BaseTable)
    ensures Lookup(bases, Expected, 0x00) == []
  {
    var b, j := LookupEntry(bases, 0x00);
    var b0 := ExtremeHit(bases, b, j, 0x00);
    ExtremeCasesEmpty();
  }

  /** The mask with every corner inside has no triangles. */
  lemma LookupFull(bases: seq<BaseCase>)
    requires SameCases(bases, BaseTable)
    ensures Lookup(bases, Expected, 0xff) == []
  {
    var b, j := LookupEntry(bases, 0xff);
    var b0 := ExtremeHit(bases, b, j, 0xff);
    ExtremeCasesEmpty();
  }

  /** Rotating a list of edge stencils by an edge-preserving rotation gives edge stencils. */
  lemma RotateAllOnEdges(r: Rotation, ts: seq<Stencil>)
    requires PreservesEdges(r) && forall t :: t in ts ==> OnEdges(t)
    ensures forall t :: t in RotateAll(r, ts) ==> OnEdges(t)
  {
    forall t | t in RotateAll(r, ts) ensures OnEdges(t) {
      var i :| 0 <= i < |ts| && RotateAll(r, ts)[i] == t;
      assert ts[i] in ts;
      ApplyTriangleOnEdges(r, ts[i]);
    }
  }

  /** Every corner pair of every stencil of every table entry spans a cube edge. */
  lemma LookupOnEdges(bases: seq<BaseCase>, k: Mask)
    requires SameCases(bases, BaseTable)
    ensures forall t :: t in Lookup(bases, Expected, k) ==> OnEdges(t)
  {
    var b, j := LookupEntry(bases, k);
    assert bases[b] in BaseTable;
    var b0 :| 0 <= b0 < |BaseTable| && BaseTable[b0] == bases[b];
    BaseTableOnEdges(b0);
    ExpectedAreRotations();
    assert Expected[j] in Expected;
    RotateAllOnEdges(Expected[j], bases[b].tris);
  }

}
