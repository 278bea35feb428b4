/** The integer lattice of marching cubes (squareSpacer in mc.go) and the
    assembly of a cell's corner mask. Only the number of grid lines on each
    axis matters here; the float coordinates of the lines are not modelled. */
module McLattice {
  import opened Wrappers
  import opened McCube

  /** Go's integer division and remainder, which truncate toward zero. */
  function GoDiv(a: int, n: int): int
    requires n > 0
  {
    if a >= 0 then a / n else -((-a) / n)
  }

  function GoMod(a: int, n: int): int
    requires n > 0
  {
    if a >= 0 then a % n else -((-a) % n)
  }

  /** A squareSpacer: nx, ny and nz are len(Xs), len(Ys) and len(Zs). */
  datatype Spacer = Spacer(nx: nat, ny: nat, nz: nat)

  /** len(Xs) - 1 and its kin: the number of cells along an axis, which
      the loops of IterateSquares treat as 0 when it is negative. */
  function Cells(n: nat): nat
  {
    if n == 0 then 0 else n - 1
  }

  function NumCorners(s: Spacer): int
  {
    s.nx * s.ny * s.nz
  }

  function CornerIndex(s: Spacer, x: int, y: int, z: int): int
  {
    x + y * s.nx + z * (s.nx * s.ny)
  }

  function IndexToCorner(s: Spacer, idx: int): (int, int, int)
    requires s.nx > 0 && s.ny > 0
  {
    var x := GoMod(idx, s.nx);
    var rest := GoDiv(idx, s.nx);
    (x, GoMod(rest, s.ny), GoDiv(rest, s.ny))
  }

  /** NumSquares multiplies the three lengths minus one, as ints. */
  function NumSquares(s: Spacer): int
  {
    (s.nx - 1) * (s.ny - 1) * (s.nz - 1)
  }

  function SquareIndex(s: Spacer, x: int, y: int, z: int): int
  {
    x + y * (s.nx - 1) + z * (s.nx - 1) * (s.ny - 1)
  }

  predicate InCorners(s: Spacer, x: int, y: int, z: int)
  {
    0 <= x < s.nx && 0 <= y < s.ny && 0 <= z < s.nz
  }

  predicate InCells(s: Spacer, x: int, y: int, z: int)
  {
    0 <= x < Cells(s.nx) && 0 <= y < Cells(s.ny) && 0 <= z < Cells(s.nz)
  }

  /* ---------------- index arithmetic ---------------- */

  lemma {:induction false} MulNonneg(a: int, b: int)
    requires 0 <= a && 0 <= b
    ensures 0 <= a * b
    decreases b
  {
    if b > 0 {
      MulNonneg(a, b - 1);
      assert a * b == a * (b - 1) + a;
    }
  }

  /** A multiple of n strictly between -n and n is zero. */
  lemma MulBetween(n: int, d: int)
    requires n > 0 && -n < n * d < n
    ensures d == 0
  {
    if d > 0 {
      MulNonneg(n, d - 1);
    } else if d < 0 {
      MulNonneg(n, -d - 1);
    }
  }

  /** Euclidean division recovers a digit and the rest. */
  lemma DivModDigit(a: int, b: int, n: int)
    requires 0 <= a < n && 0 <= b
    ensures (a + n * b) / n == b && (a + n * b) % n == a
  {
    var v := a + n * b;
    var q, r := v / n, v % n;
    assert v == n * q + r && 0 <= r < n;
    assert n * (q - b) == a - r;
    MulBetween(n, q - b);
  }

  /** Reading the corner index back gives the corner. */
  lemma CornerRoundTrip(s: Spacer, x: int, y: int, z: int)
    requires InCorners(s, x, y, z)
    ensures IndexToCorner(s, CornerIndex(s, x, y, z)) == (x, y, z)
  {
    var rest := y + s.ny * z;
    MulNonneg(s.ny, z);
    MulNonneg(s.nx, rest);
    assert CornerIndex(s, x, y, z) == x + s.nx * rest;
    DivModDigit(x, rest, s.nx);
    DivModDigit(y, z, s.ny);
  }

  /** Every index of a corner is reached from exactly that corner. */
  lemma IndexRoundTrip(s: Spacer, idx: int)
    requires s.nx > 0 && s.ny > 0 && 0 <= idx < NumCorners(s)
    ensures InCorners(s, IndexToCorner(s, idx).0, IndexToCorner(s, idx).1, IndexToCorner(s, idx).2)
    ensures CornerIndex(s, IndexToCorner(s, idx).0, IndexToCorner(s, idx).1, IndexToCorner(s, idx).2) == idx
  {
    var x, rest := idx % s.nx, idx / s.nx;
    assert idx == s.nx * rest + x;
    assert 0 <= rest by {
      if rest < 0 {
        MulNonneg(s.nx, -rest);
      }
    }
    var y, z := rest % s.ny, rest / s.ny;
    assert rest == s.ny * z + y;
    assert 0 <= z by {
      if z < 0 {
        MulNonneg(s.ny, -z);
      }
    }
    assert z < s.nz by {
      if z >= s.nz {
        MulNonneg(s.ny, z - s.nz);
        assert rest >= s.ny * s.nz;
        MulNonneg(s.nx, rest - s.ny * s.nz);
      }
    }
    assert CornerIndex(s, x, y, z) == x + s.nx * (y + s.ny * z);
  }

  /** Different cells have different square indices. */
  lemma SquareIndexInjective(s: Spacer, x: int, y: int, z: int, x': int, y': int, z': int)
    requires InCells(s, x, y, z) && InCells(s, x', y', z')
    requires SquareIndex(s, x, y, z) == SquareIndex(s, x', y', z')
    ensures x == x' && y == y' && z == z'
  {
    var cx, cy := Cells(s.nx), Cells(s.ny);
    assert SquareIndex(s, x, y, z) == x + cx * (y + cy * z);
    assert SquareIndex(s, x', y', z') == x' + cx * (y' + cy * z');
    MulNonneg(cy, z);
    MulNonneg(cy, z');
    DivModDigit(x, y + cy * z, cx);
    DivModDigit(x', y' + cy * z', cx);
    DivModDigit(y, z, cy);
    DivModDigit(y', z', cy);
  }

  /* ---------------- IterateSquares ---------------- */

  /** The cells in the order the three loops of IterateSquares visit them:
      z outermost, x innermost. */
  method IterateSquares(s: Spacer) returns (cells: seq<(int, int, int)>)
    ensures |cells| == Cells(s.nx) * Cells(s.ny) * Cells(s.nz)
    ensures s.nx > 0 && s.ny > 0 && s.nz > 0 ==> |cells| == NumSquares(s)
    ensures forall i :: 0 <= i < |cells| ==> InCells(s, cells[i].0, cells[i].1, cells[i].2)
    ensures forall i :: 0 <= i < |cells| ==> SquareIndex(s, cells[i].0, cells[i].1, cells[i].2) == i
  {
    var cx, cy, cz := Cells(s.nx), Cells(s.ny), Cells(s.nz);
    var plane := cx * cy;
    cells := [];
    var z, base := 0, 0;
    while z < cz
      invariant 0 <= z <= cz && base == z * plane && |cells| == base
      invariant forall i :: 0 <= i < |cells| ==> InCells(s, cells[i].0, cells[i].1, cells[i].2)
      invariant forall i :: 0 <= i < |cells| ==> SquareIndex(s, cells[i].0, cells[i].1, cells[i].2) == i
    {
      var y, row := 0, 0;
      while y < cy
        invariant 0 <= y <= cy && row == y * cx && |cells| == base + row
        invariant forall i :: 0 <= i < |cells| ==> InCells(s, cells[i].0, cells[i].1, cells[i].2)
        invariant forall i :: 0 <= i < |cells| ==> SquareIndex(s, cells[i].0, cells[i].1, cells[i].2) == i
      {
        var x := 0;
        while x < cx
          invariant 0 <= x <= cx && |cells| == base + row + x
          invariant forall i :: 0 <= i < |cells| ==> InCells(s, cells[i].0, cells[i].1, cells[i].2)
          invariant forall i :: 0 <= i < |cells| ==> SquareIndex(s, cells[i].0, cells[i].1, cells[i].2) == i
        {
          CellIndexStep(s, x, y, z, row, base);
          cells := cells + [(x, y, z)];
          x := x + 1;
        }
        y, row := y + 1, row + cx;
      }
      assert row == plane;
      z, base := z + 1, base + plane;
    }
    assert |cells| == cz * plane;
    if s.nx > 0 && s.ny > 0 && s.nz > 0 {
      assert NumSquares(s) == cx * cy * cz;
    }
  }

  /** The loop position of cell (x, y, z) is its square index. */
  lemma CellIndexStep(s: Spacer, x: int, y: int, z: int, row: int, base: int)
    requires InCells(s, x, y, z)
    requires row == y * Cells(s.nx) && base == z * (Cells(s.nx) * Cells(s.ny))
    ensures SquareIndex(s, x, y, z) == base + row + x
  {
    assert s.nx - 1 == Cells(s.nx) && s.ny - 1 == Cells(s.ny);
  }

  /* ---------------- the cell mask ---------------- */

  /** The offset of corner c within its cell, following the mcCorner order:
      x is bit 0 of c, y is bit 1 and z is bit 2. */
  function CornerOffset(c: Corner): (int, int, int)
  {
    (c % 2, c / 2 % 2, c / 4)
  }

  /** Bit k + 2j + 4i of the mask is the corner at offset (k, j, i). */
  lemma OffsetCorner(k: int, j: int, i: int)
    requires 0 <= k < 2 && 0 <= j < 2 && 0 <= i < 2
    ensures 0 <= k + 2 * j + 4 * i < 8 && CornerOffset(k + 2 * j + 4 * i) == (k, j, i)
  {
  }

  /** The solid contains corner c of cell (x, y, z). */
  predicate CornerInside(inside: (int, int, int) -> bool, x: int, y: int, z: int, c: Corner)
  {
    var (dx, dy, dz) := CornerOffset(c);
    inside(x + dx, y + dy, z + dz)
  }

  /** Corner c of cell (x, y, z) is on the outermost layer of the lattice. */
  predicate CornerOnBoundary(s: Spacer, x: int, y: int, z: int, c: Corner)
  {
    var (dx, dy, dz) := CornerOffset(c);
    x + dx == 0 || x + dx == s.nx - 1 || y + dy == 0 || y + dy == s.ny - 1
    || z + dz == 0 || z + dz == s.nz - 1
  }

  /** Some inside corner of the cell lies on the boundary. */
  predicate BadCell(s: Spacer, inside: (int, int, int) -> bool, x: int, y: int, z: int)
  {
    exists c: Corner :: CornerInside(inside, x, y, z, c) && CornerOnBoundary(s, x, y, z, c)
  }

  /** The mask the loop of MarchingCubes assembles for cell (x, y, z) once it
      has visited corners 0 to n - 1: the i, j, k loops shift a single bit
      along, so the n-th corner visited owns bit n. */
  function MaskFrom(inside: (int, int, int) -> bool, x: int, y: int, z: int, n: nat): Mask
    requires n <= 8
  {
    if n == 0 then 0
    else MaskFrom(inside, x, y, z, n - 1) | (if CornerInside(inside, x, y, z, n - 1) then Bit(n - 1) else 0)
  }

  function MaskOf(inside: (int, int, int) -> bool, x: int, y: int, z: int): Mask
  {
    MaskFrom(inside, x, y, z, 8)
  }

  /** Bit c of the partial mask is set exactly for the inside corners
      among the first n. */
  lemma {:induction false} MaskFromInside(inside: (int, int, int) -> bool, x: int, y: int, z: int, n: nat, c: Corner)
    requires n <= 8
    ensures Inside(MaskFrom(inside, x, y, z, n), c) <==> c < n && CornerInside(inside, x, y, z, c)
  {
    if n == 0 {
      ZeroFacts(c);
    } else {
      MaskFromInside(inside, x, y, z, n - 1, c);
      var extra: Mask := if CornerInside(inside, x, y, z, n - 1) then Bit(n - 1) else 0;
      OrFacts(MaskFrom(inside, x, y, z, n - 1), extra, c);
      BitFacts(n - 1, c);
      ZeroFacts(c);
    }
  }

  /** The cell mask holds exactly the corners of the cell the solid contains. */
  lemma MaskOfInside(inside: (int, int, int) -> bool, x: int, y: int, z: int)
    ensures forall c: Corner :: Inside(MaskOf(inside, x, y, z), c) <==> CornerInside(inside, x, y, z, c)
  {
    forall c: Corner
      ensures Inside(MaskOf(inside, x, y, z), c) <==> CornerInside(inside, x, y, z, c)
    {
      MaskFromInside(inside, x, y, z, 8, c);
    }
  }

  /** A digit below A plus A times a digit below B stays below A * B. */
  lemma DigitBound(a: int, na: int, b: int, nb: int)
    requires 0 <= a < na && 0 <= b < nb
    ensures 0 <= a + na * b < na * nb
  {
    MulNonneg(na, b);
    MulNonneg(na, nb - 1 - b);
    assert na * (nb - 1 - b) == na * nb - na - na * b;
  }

  /** The square index of every cell is below the number of cells. */
  lemma SquareIndexRange(s: Spacer, x: int, y: int, z: int)
    requires InCells(s, x, y, z)
    ensures 0 <= SquareIndex(s, x, y, z) < Cells(s.nx) * Cells(s.ny) * Cells(s.nz)
  {
    var cx, cy, cz := Cells(s.nx), Cells(s.ny), Cells(s.nz);
    assert cx == s.nx - 1 && cy == s.ny - 1;
    assert SquareIndex(s, x, y, z) == x + cx * (y + cy * z);
    DigitBound(y, cy, z, cz);
    DigitBound(x, cx, y + cy * z, cy * cz);
    assert cx * cy * cz == cx * (cy * cz);
  }
}
