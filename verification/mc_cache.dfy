/** solidCache (mc.go): a window of cachedZ consecutive z-planes of the
    lattice, holding whether the solid contains each corner. The solid is a
    predicate on lattice indices; the float coordinates it is evaluated at
    are not modelled. The struct is a value here: every operation returns
    the new state. */
module McCache {
  import opened McLattice

  /** The fields startZ, strideZ, cachedZ and values of a solidCache. */
  datatype Cache = Cache(startZ: int, strideZ: int, cachedZ: int, values: seq<bool>)

  /** essentials.MinInt and MaxInt. */
  function Min(a: int, b: int): int
  {
    if a < b then a else b
  }

  function Max(a: int, b: int): int
  {
    if a > b then a else b
  }

  /** The number of cached planes newSolidCache chooses. */
  const Window: int := 10

  /** The value a coherent cache holds at flat index idx: the corner whose
      x, y and plane within the window the index encodes. */
  function ValueAt(s: Spacer, inside: (int, int, int) -> bool, start: int, idx: int): bool
  {
    var stride := s.nx * s.ny;
    if s.nx > 0 && stride > 0 then
      var rem := idx % stride;
      inside(rem % s.nx, rem / s.nx, start + idx / stride)
    else false
  }

  /** The shape newSolidCache gives the state, which no operation changes. */
  predicate Shaped(s: Spacer, c: Cache)
  {
    c.strideZ == s.nx * s.ny && c.cachedZ == Min(s.nz, Window)
    && |c.values| == c.strideZ * c.cachedZ
    && 0 <= c.startZ <= s.nz - c.cachedZ
  }

  /** Every cached value is the solid's value at its corner. */
  predicate Coherent(s: Spacer, inside: (int, int, int) -> bool, c: Cache)
  {
    Shaped(s, c)
    && forall idx :: 0 <= idx < |c.values| ==> c.values[idx] == ValueAt(s, inside, c.startZ, idx)
  }

  predicate InWindow(c: Cache, z: int)
  {
    c.startZ <= z < c.startZ + c.cachedZ
  }

  /* ---------------- flat-index arithmetic ---------------- */

  /** Adding whole multiples of n moves the quotient and keeps the remainder. */
  lemma DivShift(a: int, b: int, n: int)
    requires 0 <= a && 0 <= b && 0 < n
    ensures (a + n * b) / n == a / n + b && (a + n * b) % n == a % n
  {
    var q, r := a / n, a % n;
    assert a + n * b == r + n * (q + b);
    MulNonneg(n, q);
    assert q >= 0 by {
      if q < 0 {
        MulNonneg(n, -q);
      }
    }
    DivModDigit(r, q + b, n);
  }

  /** A row offset stays inside its plane. */
  lemma RowBound(x: int, y: int, nx: int, ny: int)
    requires 0 <= x < nx && 0 <= y < ny
    ensures 0 <= x + y * nx < nx * ny
  {
    MulNonneg(y, nx);
    MulNonneg(ny - 1 - y, nx);
    assert (ny - 1 - y) * nx == nx * ny - nx - y * nx;
  }

  /** An offset within plane zz of n planes stays inside the window. */
  lemma PlaneBound(r: int, zz: int, stride: int, n: int)
    requires 0 <= r < stride && 0 <= zz < n
    ensures 0 <= r + zz * stride < n * stride
  {
    MulNonneg(zz, stride);
    MulNonneg(n - 1 - zz, stride);
    assert (n - 1 - zz) * stride == n * stride - zz * stride - stride;
  }

  /** The corner (x, y, zz) of the window sits at flat index CornerIndex. */
  lemma ValueAtCorner(s: Spacer, inside: (int, int, int) -> bool, start: int, x: int, y: int, zz: int)
    requires 0 <= x < s.nx && 0 <= y < s.ny && 0 <= zz
    ensures ValueAt(s, inside, start, CornerIndex(s, x, y, zz)) == inside(x, y, start + zz)
  {
    var stride := s.nx * s.ny;
    RowBound(x, y, s.nx, s.ny);
    assert CornerIndex(s, x, y, zz) == (x + y * s.nx) + stride * zz;
    DivModDigit(x + y * s.nx, zz, stride);
    DivModDigit(x, y, s.nx);
  }

  /** Moving the window by whole planes moves the value at a flat index. */
  lemma ValueAtShift(s: Spacer, inside: (int, int, int) -> bool, start: int, shift: int, i: int)
    requires 0 <= i && 0 <= shift
    ensures ValueAt(s, inside, start, i + shift * (s.nx * s.ny)) == ValueAt(s, inside, start + shift, i)
  {
    var stride := s.nx * s.ny;
    if s.nx > 0 && stride > 0 {
      DivShift(i, shift, stride);
    }
  }

  /* ---------------- fillTailValues ---------------- */

  /** The innermost loop of fillTailValues: row y of window plane zz. */
  method FillRow(s: Spacer, inside: (int, int, int) -> bool, start: int, values: seq<bool>, zz: int, y: int)
    returns (r: seq<bool>)
    requires 0 <= y < s.ny && 0 <= zz
    requires 0 <= CornerIndex(s, 0, y, zz) && CornerIndex(s, 0, y, zz) + s.nx <= |values|
    ensures |r| == |values|
    ensures forall i :: 0 <= i < CornerIndex(s, 0, y, zz) ==> r[i] == values[i]
    ensures forall i :: CornerIndex(s, 0, y, zz) + s.nx <= i < |values| ==> r[i] == values[i]
    ensures forall i :: CornerIndex(s, 0, y, zz) <= i < CornerIndex(s, 0, y, zz) + s.nx ==>
      r[i] == ValueAt(s, inside, start, i)
  {
    var lo := CornerIndex(s, 0, y, zz);
    r := values;
    var x := 0;
    while x < s.nx
      invariant 0 <= x <= s.nx && |r| == |values|
      invariant forall i :: 0 <= i < lo ==> r[i] == values[i]
      invariant forall i :: lo + x <= i < |values| ==> r[i] == values[i]
      invariant forall i :: lo <= i < lo + x ==> r[i] == ValueAt(s, inside, start, i)
    {
      ValueAtCorner(s, inside, start, x, y, zz);
      assert CornerIndex(s, x, y, zz) == lo + x;
      r := r[lo + x := inside(x, y, start + zz)];
      x := x + 1;
    }
  }

  /** The middle loop of fillTailValues: every row of window plane zz. */
  method FillPlane(s: Spacer, inside: (int, int, int) -> bool, start: int, values: seq<bool>, zz: int)
    returns (r: seq<bool>)
    requires 0 <= zz && 0 <= zz * (s.nx * s.ny) && zz * (s.nx * s.ny) + s.nx * s.ny <= |values|
    ensures |r| == |values|
    ensures forall i :: 0 <= i < zz * (s.nx * s.ny) ==> r[i] == values[i]
    ensures forall i :: zz * (s.nx * s.ny) + s.nx * s.ny <= i < |values| ==> r[i] == values[i]
    ensures forall i :: zz * (s.nx * s.ny) <= i < zz * (s.nx * s.ny) + s.nx * s.ny ==>
      r[i] == ValueAt(s, inside, start, i)
  {
    var lo := zz * (s.nx * s.ny);
    var hi := lo + s.nx * s.ny;
    r := values;
    var y, rowStart := 0, lo;
    while y < s.ny
      invariant 0 <= y <= s.ny && |r| == |values| && rowStart == CornerIndex(s, 0, y, zz)
      invariant lo <= rowStart && (y < s.ny ==> rowStart + s.nx <= hi) && (y == s.ny ==> rowStart == hi)
      invariant forall i :: 0 <= i < lo ==> r[i] == values[i]
      invariant forall i :: rowStart <= i < |values| ==> r[i] == values[i]
      invariant forall i :: lo <= i < rowStart ==> r[i] == ValueAt(s, inside, start, i)
    {
      r := FillRow(s, inside, start, r, zz, y);
      RowStep(s, y, zz);
      y, rowStart := y + 1, rowStart + s.nx;
    }
  }

  /** Stepping to the next row adds nx to the row's start, which stays
      inside the plane until the last row. */
  lemma RowStep(s: Spacer, y: int, zz: int)
    requires 0 <= y < s.ny
    ensures CornerIndex(s, 0, y + 1, zz) == CornerIndex(s, 0, y, zz) + s.nx
    ensures CornerIndex(s, 0, y, zz) >= zz * (s.nx * s.ny)
    ensures y + 1 < s.ny ==> CornerIndex(s, 0, y + 1, zz) + s.nx <= zz * (s.nx * s.ny) + s.nx * s.ny
    ensures y + 1 == s.ny ==> CornerIndex(s, 0, y + 1, zz) == zz * (s.nx * s.ny) + s.nx * s.ny
  {
    MulNonneg(y, s.nx);
    if y + 1 < s.ny {
      MulNonneg(s.ny - y - 2, s.nx);
      assert (s.ny - y - 2) * s.nx == s.nx * s.ny - (y + 1) * s.nx - s.nx;
    }
  }

  /** Recompute the last numTail planes of the window from the solid,
      walking z, then y, then x, as fillTailValues does. The caller passes
      lo, the flat index of the first recomputed value. */
  method FillTail(s: Spacer, inside: (int, int, int) -> bool, c: Cache, numTail: int, lo: int) returns (c': Cache)
    requires Shaped(s, c) && 0 <= numTail <= c.cachedZ
    requires lo == (c.cachedZ - numTail) * c.strideZ && 0 <= lo <= |c.values|
    ensures Shaped(s, c') && c'.startZ == c.startZ
    ensures forall idx :: 0 <= idx < lo ==> c'.values[idx] == c.values[idx]
    ensures forall idx :: lo <= idx < |c.values| ==> c'.values[idx] == ValueAt(s, inside, c.startZ, idx)
  {
    var values := c.values;
    var zz, planeStart := c.cachedZ - numTail, lo;
    while zz < c.cachedZ
      invariant c.cachedZ - numTail <= zz <= c.cachedZ && |values| == |c.values|
      invariant planeStart == zz * c.strideZ && lo <= planeStart <= |values|
      invariant zz == c.cachedZ ==> planeStart == |values|
      invariant forall i :: 0 <= i < lo ==> values[i] == c.values[i]
      invariant forall i :: lo <= i < planeStart ==> values[i] == ValueAt(s, inside, c.startZ, i)
    {
      PlaneStep(c.strideZ, zz, c.cachedZ);
      values := FillPlane(s, inside, c.startZ, values, zz);
      zz, planeStart := zz + 1, planeStart + c.strideZ;
    }
    c' := c.(values := values);
  }

  lemma PlaneStep(stride: int, zz: int, n: int)
    requires 0 <= stride && 0 <= zz < n
    ensures (zz + 1) * stride == zz * stride + stride
    ensures 0 <= zz * stride && zz * stride + stride <= n * stride
  {
    MulNonneg(zz, stride);
    MulMono(zz + 1, n, stride);
  }

  lemma MulMono(a: int, b: int, n: int)
    requires 0 <= a <= b && 0 <= n
    ensures a * n <= b * n
  {
    MulNonneg(b - a, n);
    assert (b - a) * n == b * n - a * n;
  }

  /* ---------------- newSolidCache ---------------- */

  /** A fresh cache: the bottom Min(nz, 10) planes, all filled. */
  method NewCache(s: Spacer, inside: (int, int, int) -> bool) returns (c: Cache)
    ensures Coherent(s, inside, c)
    ensures c.startZ == 0 && c.cachedZ == Min(s.nz, Window) && c.strideZ == s.nx * s.ny
  {
    var cachedZ := Min(s.nz, Window);
    var strideZ := s.nx * s.ny;
    MulNonneg(s.nx, s.ny);
    MulNonneg(strideZ, cachedZ);
    var blank := Cache(0, strideZ, cachedZ, seq(strideZ * cachedZ, _ => false));
    c := FillTail(s, inside, blank, cachedZ, 0);
  }

  /* ---------------- re-centring ---------------- */

  /** The start newStart CornerValue picks for a plane outside the window. */
  function Recentre(s: Spacer, c: Cache, z: int): int
  {
    Min(Max(0, z - c.cachedZ / 2), s.nz - c.cachedZ)
  }

  /** The re-centred window is in range and holds the requested plane. */
  lemma RecentreCovers(s: Spacer, c: Cache, z: int)
    requires Shaped(s, c) && 0 <= z < s.nz
    ensures 0 <= Recentre(s, c, z) <= s.nz - c.cachedZ
    ensures Recentre(s, c, z) <= z < Recentre(s, c, z) + c.cachedZ
  {
  }

  /** copy(values, values[shift*strideZ:]): the planes from shift on move to
      the front and the last shift planes keep their old contents. */
  function CopyDown(values: seq<bool>, offset: int): (r: seq<bool>)
    requires 0 <= offset <= |values|
    ensures |r| == |values|
  {
    values[offset..] + values[|values| - offset..]
  }

  /** After copying the overlap down, the front of the array is coherent
      with the new start. */
  lemma CopyCoherent(s: Spacer, inside: (int, int, int) -> bool, c: Cache, shift: int)
    requires Coherent(s, inside, c) && 0 <= shift < c.cachedZ
    ensures 0 <= shift * c.strideZ <= |c.values|
    ensures (c.cachedZ - shift) * c.strideZ == |c.values| - shift * c.strideZ
    ensures forall i :: 0 <= i < |c.values| - shift * c.strideZ ==>
      CopyDown(c.values, shift * c.strideZ)[i] == ValueAt(s, inside, c.startZ + shift, i)
  {
    MulNonneg(shift, c.strideZ);
    MulMono(shift, c.cachedZ, c.strideZ);
    assert (c.cachedZ - shift) * c.strideZ == c.cachedZ * c.strideZ - shift * c.strideZ;
    var offset := shift * c.strideZ;
    forall i | 0 <= i < |c.values| - offset
      ensures CopyDown(c.values, offset)[i] == ValueAt(s, inside, c.startZ + shift, i)
    {
      CopyOne(s, inside, c, shift, offset, i);
    }
  }

  lemma CopyOne(s: Spacer, inside: (int, int, int) -> bool, c: Cache, shift: int, offset: int, i: int)
    requires Coherent(s, inside, c) && 0 <= shift && offset == shift * c.strideZ && 0 <= i < |c.values| - offset
    ensures CopyDown(c.values, offset)[i] == ValueAt(s, inside, c.startZ + shift, i)
  {
    assert CopyDown(c.values, offset)[i] == c.values[offset..][i];
    ValueAtShift(s, inside, c.startZ, shift, i);
  }

  /** Move the window to newStart: copy the overlap down and refill the rest,
      or refill everything when the windows do not overlap. */
  method Shift(s: Spacer, inside: (int, int, int) -> bool, c: Cache, newStart: int) returns (c': Cache)
    requires Coherent(s, inside, c) && 0 <= newStart <= s.nz - c.cachedZ
    ensures Coherent(s, inside, c') && c'.startZ == newStart
  {
    var shift := newStart - c.startZ;
    if shift < 0 || shift >= c.cachedZ {
      c' := FillTail(s, inside, c.(startZ := newStart), c.cachedZ, 0);
    } else {
      c' := Slide(s, inside, c, shift);
    }
  }

  /** The overlapping case of Shift: the window moves up by 0 <= shift < cachedZ planes. */
  method Slide(s: Spacer, inside: (int, int, int) -> bool, c: Cache, shift: int) returns (c': Cache)
    requires Coherent(s, inside, c) && 0 <= shift < c.cachedZ && c.startZ + shift <= s.nz - c.cachedZ
    ensures Coherent(s, inside, c') && c'.startZ == c.startZ + shift
  {
    CopyCoherent(s, inside, c, shift);
    var offset := shift * c.strideZ;
    var moved := c.(startZ := c.startZ + shift, values := CopyDown(c.values, offset));
    c' := FillTail(s, inside, moved, shift, |c.values| - offset);
    Glue(s, inside, moved, c', |c.values| - offset);
  }

  /** A window whose front agrees with a coherent front and whose tail was
      refilled is coherent. */
  lemma Glue(s: Spacer, inside: (int, int, int) -> bool, front: Cache, c: Cache, keep: int)
    requires Shaped(s, c) && front.startZ == c.startZ && 0 <= keep <= |c.values| <= |front.values|
    requires forall idx :: 0 <= idx < keep ==> front.values[idx] == ValueAt(s, inside, c.startZ, idx)
    requires forall idx :: 0 <= idx < keep ==> c.values[idx] == front.values[idx]
    requires forall idx :: keep <= idx < |c.values| ==> c.values[idx] == ValueAt(s, inside, c.startZ, idx)
    ensures Coherent(s, inside, c)
  {
  }

  /** CornerValue: answer from the window, re-centring it first when the
      plane is outside. The decreases clause says the call recurses at most
      once: after re-centring the plane is in the window. */
  method CornerValue(s: Spacer, inside: (int, int, int) -> bool, c: Cache, x: int, y: int, z: int)
    returns (v: bool, c': Cache)
    requires Coherent(s, inside, c) && InCorners(s, x, y, z)
    ensures v == inside(x, y, z)
    ensures Coherent(s, inside, c')
    ensures c'.cachedZ == c.cachedZ && 0 <= c'.startZ <= s.nz - c'.cachedZ
    ensures InWindow(c', z)
    decreases if InWindow(c, z) then 0 else 1
  {
    if InWindow(c, z) {
      ValueAtCorner(s, inside, c.startZ, x, y, z - c.startZ);
      CornerInWindow(s, c, x, y, z - c.startZ);
      v := c.values[CornerIndex(s, x, y, z - c.startZ)];
      c' := c;
    } else {
      RecentreCovers(s, c, z);
      var moved := Shift(s, inside, c, Recentre(s, c, z));
      v, c' := CornerValue(s, inside, moved, x, y, z);
    }
  }

  /** A corner of the window has its flat index inside the array. */
  lemma CornerInWindow(s: Spacer, c: Cache, x: int, y: int, zz: int)
    requires Shaped(s, c) && 0 <= x < s.nx && 0 <= y < s.ny && 0 <= zz < c.cachedZ
    ensures 0 <= CornerIndex(s, x, y, zz) < |c.values|
  {
    RowBound(x, y, s.nx, s.ny);
    PlaneBound(x + y * s.nx, zz, c.strideZ, c.cachedZ);
  }
}
