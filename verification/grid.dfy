/** The voxel grid data model: per-cell labels, the grid resolution, the
    row-major linearisation of (i,j,k) cell coordinates and the 6-connected
    (face-adjacent) neighbourhood of a cell. */
module VoxelGrid {

  /** Classification of one voxel. UNKNOWN is transient: it only exists while
      the surface-mesh variant is still labelling the grid. */
  datatype Label = Unknown | Boundary | Inside | Outside

  /** Grid resolution (dim[0], dim[1], dim[2]). */
  datatype Dims = Dims(nx: nat, ny: nat, nz: nat)

  /** A 3D cell coordinate (i, j, k). */
  datatype Ijk = Ijk(i: nat, j: nat, k: nat)

  /** Number of cells of the grid. */
  function Size(d: Dims): nat
  {
    d.nx * d.ny * d.nz
  }

  predicate InBounds(d: Dims, c: Ijk)
  {
    c.i < d.nx && c.j < d.ny && c.k < d.nz
  }

  /** A grid with at least one cell has no zero dimension. */
  lemma NonEmptyDims(d: Dims, index: nat)
    requires index < Size(d)
    ensures d.nx > 0 && d.ny > 0 && d.nz > 0
  {
  }

  /** Row-major linearisation over (dim[1], dim[2]): k varies fastest. */
  function Serialize(d: Dims, c: Ijk): nat
  {
    (c.i * d.ny + c.j) * d.nz + c.k
  }

  /** Euclidean quotient and remainder of `a` by `n`. */
  function DivMod(a: nat, n: nat): (r: (nat, nat))
    requires n > 0
    ensures r.0 * n + r.1 == a && r.1 < n
  {
    (a / n, a % n)
  }

  /** Inverse of Serialize on the cells of the grid: k is the remainder by
      dim[2], j the remainder of the quotient by dim[1], i what is left. */
  function Deserialize(d: Dims, index: nat): (c: Ijk)
    requires index < Size(d)
    ensures InBounds(d, c)
  {
    NonEmptyDims(d, index);
    var (q, k) := DivMod(index, d.nz);
    var (i, j) := DivMod(q, d.ny);
    QuotientBound(d, index, q, k, i, j);
    Ijk(i, j, k)
  }

  /** The outer quotient of a grid index is a valid first coordinate. */
  lemma QuotientBound(d: Dims, index: nat, q: nat, k: nat, i: nat, j: nat)
    requires index < Size(d)
    requires q * d.nz + k == index && j < d.ny
    requires i * d.ny + j == q
    ensures i < d.nx
  {
    assert d.nx * d.ny * d.nz == (d.nx * d.ny) * d.nz;
    if q >= d.nx * d.ny {
      MulMonotone(d.nx * d.ny, q, d.nz);
      assert false;
    }
    if i >= d.nx {
      MulMonotone(d.nx, i, d.ny);
      assert false;
    }
  }

  /** Decoding a grid index and linearising it again gives the index back. */
  lemma DeserializeInverse(d: Dims, index: nat)
    requires index < Size(d)
    ensures Serialize(d, Deserialize(d, index)) == index
  {
  }

  lemma MulMonotone(a: nat, b: nat, n: nat)
    requires a <= b
    ensures a * n <= b * n
  {
  }

  /** Uniqueness of Euclidean division: a * n + b splits back into a and b
      when 0 <= b < n. */
  lemma DivModUnique(a: nat, b: nat, n: nat)
    requires b < n
    ensures DivMod(a * n + b, n) == (a, b)
  {
    var (q, r) := DivMod(a * n + b, n);
    if q < a {
      MulMonotone(q + 1, a, n);
      assert false;
    } else if q > a {
      MulMonotone(a + 1, q, n);
      assert false;
    }
  }

  /** An in-bounds coordinate linearises to a cell of the grid. */
  lemma SerializeInBounds(d: Dims, c: Ijk)
    requires InBounds(d, c)
    ensures Serialize(d, c) < Size(d)
  {
    var q := c.i * d.ny + c.j;
    MulMonotone(c.i + 1, d.nx, d.ny);
    MulMonotone(q + 1, d.nx * d.ny, d.nz);
    assert d.nx * d.ny * d.nz == (d.nx * d.ny) * d.nz;
  }

  /** Linearising an in-bounds coordinate and decoding it gives it back,
      and the linear index addresses a cell of the grid. */
  lemma RoundTrip(d: Dims, c: Ijk)
    requires InBounds(d, c)
    ensures Serialize(d, c) < Size(d)
    ensures Deserialize(d, Serialize(d, c)) == c
  {
    SerializeInBounds(d, c);
    DivModUnique(c.i * d.ny + c.j, c.k, d.nz);
    DivModUnique(c.i, c.j, d.ny);
  }

  /** Cells sharing a face: exactly one coordinate differs, and by one. */
  predicate FaceAdjacent(a: Ijk, b: Ijk)
  {
    || (a.j == b.j && a.k == b.k && (a.i + 1 == b.i || b.i + 1 == a.i))
    || (a.i == b.i && a.k == b.k && (a.j + 1 == b.j || b.j + 1 == a.j))
    || (a.i == b.i && a.j == b.j && (a.k + 1 == b.k || b.k + 1 == a.k))
  }

  /** The linear index of cell (i, j, k) when `cond` holds, nothing otherwise;
      `cond` is the border test that keeps the cell inside the grid. */
  function NeighbourIf(d: Dims, cond: bool, i: int, j: int, k: int): (r: seq<nat>)
    requires cond ==> 0 <= i < d.nx && 0 <= j < d.ny && 0 <= k < d.nz
    ensures |r| <= 1
    ensures forall n :: n in r ==> n < Size(d)
  {
    if cond then RoundTrip(d, Ijk(i, j, k)); [Serialize(d, Ijk(i, j, k))] else []
  }

  lemma NeighbourIfExact(d: Dims, cond: bool, i: int, j: int, k: int, other: nat)
    requires cond ==> 0 <= i < d.nx && 0 <= j < d.ny && 0 <= k < d.nz
    requires other < Size(d)
    ensures other in NeighbourIf(d, cond, i, j, k) <==>
              cond && Deserialize(d, other) == Ijk(i, j, k)
  {
    if cond {
      RoundTrip(d, Ijk(i, j, k));
      DeserializeInverse(d, other);
    }
  }

  /** The linear indices of the in-bounds face-adjacent cells of `index`
      (at most six; fewer on the grid border). */
  function N6(d: Dims, index: nat): (r: seq<nat>)
    requires index < Size(d)
    ensures |r| <= 6
    ensures forall n :: n in r ==> n < Size(d)
  {
    var c := Deserialize(d, index);
    var lowI := NeighbourIf(d, c.i > 0, c.i - 1, c.j, c.k);
    var highI := NeighbourIf(d, c.i + 1 < d.nx, c.i + 1, c.j, c.k);
    var lowJ := NeighbourIf(d, c.j > 0, c.i, c.j - 1, c.k);
    var highJ := NeighbourIf(d, c.j + 1 < d.ny, c.i, c.j + 1, c.k);
    var lowK := NeighbourIf(d, c.k > 0, c.i, c.j, c.k - 1);
    var highK := NeighbourIf(d, c.k + 1 < d.nz, c.i, c.j, c.k + 1);
    lowI + highI + lowJ + highJ + lowK + highK
  }

  lemma N6Bounds(d: Dims, index: nat)
    requires index < Size(d)
    ensures forall u :: 0 <= u < |N6(d, index)| ==> N6(d, index)[u] < Size(d)
  {
    var r := N6(d, index);
    forall u | 0 <= u < |r|
      ensures r[u] < Size(d)
    {
      assert r[u] in r;
    }
  }

  /** N6 lists exactly the grid cells that share a face with `index`. */
  lemma N6Exact(d: Dims, index: nat, other: nat)
    requires index < Size(d) && other < Size(d)
    ensures other in N6(d, index) <==> FaceAdjacent(Deserialize(d, index), Deserialize(d, other))
  {
    var c := Deserialize(d, index);
    NeighbourIfExact(d, c.i > 0, c.i - 1, c.j, c.k, other);
    NeighbourIfExact(d, c.i + 1 < d.nx, c.i + 1, c.j, c.k, other);
    NeighbourIfExact(d, c.j > 0, c.i, c.j - 1, c.k, other);
    NeighbourIfExact(d, c.j + 1 < d.ny, c.i, c.j + 1, c.k, other);
    NeighbourIfExact(d, c.k > 0, c.i, c.j, c.k - 1, other);
    NeighbourIfExact(d, c.k + 1 < d.nz, c.i, c.j, c.k + 1, other);
  }

  /** The grid's outer shell on the low side of each axis, where the
      surface variant looks for its flood seed. */
  predicate OnShell(d: Dims, index: nat)
    requires index < Size(d)
  {
    var c := Deserialize(d, index);
    c.i == 0 || c.j == 0 || c.k == 0
  }
}
