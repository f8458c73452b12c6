/** Voxelisation of a shape given by its boundary surface mesh: cells met by
    the surface are BOUNDARY, a flood fill from a shell cell finds the OUTSIDE
    cells, and everything left is INSIDE. */
module VoxelizeMesh {
  import opened VoxelGrid
  import opened Flood

  /** What the spatial index and the exact box/element test answer.
      `candidates(index)` lists the ids of the mesh elements whose bounding
      box overlaps the box of cell `index`; `intersects(index, id)` tells
      whether element `id` really meets that box. */
  datatype Geometry = Geometry(candidates: nat -> seq<nat>, intersects: (nat, nat) -> bool)

  /** Some candidate element intersects the box of cell `index`. */
  predicate Intersected(g: Geometry, index: nat)
  {
    exists t :: 0 <= t < |g.candidates(index)| && g.intersects(index, g.candidates(index)[t])
  }

  /** The test over the candidate list of one cell. */
  method BoundaryTest(g: Geometry, index: nat) returns (boundary: bool)
    ensures boundary <==> Intersected(g, index)
  {
    var elems := g.candidates(index);
    boundary := false;
    for t := 0 to |elems|
      invariant boundary <==> exists u :: 0 <= u < t && g.intersects(index, elems[u])
    {
      if g.intersects(index, elems[t]) {
        boundary := true;
      }
    }
  }

  /** A cell that may seed the flood: not BOUNDARY and on the low shell. */
  predicate SeedCandidate(d: Dims, g: Geometry, index: nat)
    requires index < Size(d)
  {
    !Intersected(g, index) && OnShell(d, index)
  }

  /** The flood seed left by an ascending pass over the first `n` cells: the
      last seed candidate written, or -1 when there is none. */
  function LastSeed(d: Dims, g: Geometry, n: nat): (seed: int)
    requires n <= Size(d)
    ensures -1 <= seed < n
    ensures seed == -1 <==> forall c :: 0 <= c < n ==> !SeedCandidate(d, g, c)
    ensures seed >= 0 ==> SeedCandidate(d, g, seed)
    ensures forall c :: seed < c < n ==> !SeedCandidate(d, g, c)
  {
    if n == 0 then -1
    else if SeedCandidate(d, g, n - 1) then n - 1
    else LastSeed(d, g, n - 1)
  }

  /** The grid as the labelling pass leaves it. */
  function Labelled(d: Dims, g: Geometry): (cells: seq<Label>)
    ensures |cells| == Size(d)
    ensures OnlyBoundaryOrUnknown(cells)
    ensures forall c :: 0 <= c < |cells| ==> (cells[c] == Boundary <==> Intersected(g, c))
  {
    seq(Size(d), (c: int) => if 0 <= c && Intersected(g, c) then Boundary else Unknown)
  }

  /** The labelling pass: each cell becomes BOUNDARY or UNKNOWN, and every
      non-BOUNDARY shell cell overwrites the flood seed in turn. */
  method LabelCells(d: Dims, g: Geometry) returns (cells: seq<Label>, seed: int)
    ensures |cells| == Size(d)
    ensures forall c :: 0 <= c < |cells| ==> cells[c] == (if Intersected(g, c) then Boundary else Unknown)
    ensures cells == Labelled(d, g)
    ensures seed == LastSeed(d, g, Size(d))
  {
    var size := Size(d);
    cells, seed := [], -1;
    for index := 0 to size
      invariant |cells| == index
      invariant forall c :: 0 <= c < index ==> cells[c] == (if Intersected(g, c) then Boundary else Unknown)
      invariant seed == LastSeed(d, g, index)
    {
      var boundary := BoundaryTest(g, index);
      cells := cells + [if boundary then Boundary else Unknown];
      var ijk := Deserialize(d, index);
      if !boundary && (ijk.i == 0 || ijk.j == 0 || ijk.k == 0) {
        seed := index;
      }
    }
  }

  /** The residual pass: every cell still UNKNOWN becomes INSIDE. */
  method MarkInside(cells: seq<Label>) returns (out: seq<Label>)
    ensures |out| == |cells|
    ensures forall c :: 0 <= c < |out| ==> out[c] != Unknown
    ensures forall c :: 0 <= c < |out| && cells[c] == Unknown ==> out[c] == Inside
    ensures forall c :: 0 <= c < |out| && cells[c] != Unknown ==> out[c] == cells[c]
  {
    out := cells;
    for index := 0 to |cells|
      invariant |out| == |cells|
      invariant forall c :: 0 <= c < index ==> out[c] != Unknown
      invariant forall c :: 0 <= c < |out| && cells[c] == Unknown && c < index ==> out[c] == Inside
      invariant forall c :: 0 <= c < |out| && (cells[c] != Unknown || c >= index) ==> out[c] == cells[c]
    {
      if out[index] == Unknown {
        out := out[index := Inside];
      }
    }
  }

  /** The final label of cell `c` when the flood runs (`flooded`) from the
      seed LastSeed or does not run at all. */
  ghost function FinalLabel(d: Dims, g: Geometry, flooded: bool, c: nat): Label
    requires c < Size(d)
    requires flooded ==> LastSeed(d, g, Size(d)) >= 0
  {
    if Intersected(g, c) then Boundary
    else if flooded && Reachable(d, Labelled(d, g), LastSeed(d, g, Size(d)), c) then Outside
    else Inside
  }

  ghost function FinalLabels(d: Dims, g: Geometry, flooded: bool): (r: seq<Label>)
    requires flooded ==> LastSeed(d, g, Size(d)) >= 0
    ensures |r| == Size(d)
  {
    seq(Size(d), (c: int) requires 0 <= c < Size(d) => FinalLabel(d, g, flooded, c))
  }

  /** Flood (when `flooded`) and residual pass after labelling. */
  method Resolve(d: Dims, g: Geometry, cells: seq<Label>, seed: int, flooded: bool) returns (out: seq<Label>)
    requires cells == Labelled(d, g) && seed == LastSeed(d, g, Size(d))
    requires flooded ==> seed >= 0
    ensures out == FinalLabels(d, g, flooded)
  {
    var flood := cells;
    if flooded {
      flood := FloodOutside(d, cells, seed);
    }
    out := MarkInside(flood);
  }

  /** The surface-mesh voxelisation as written: the flood only runs for a seed
      index greater than 0, so a seed at index 0 leaves the grid unflooded. */
  method VoxelizeAsWritten(d: Dims, g: Geometry) returns (cells: seq<Label>)
    ensures cells == FinalLabels(d, g, LastSeed(d, g, Size(d)) > 0)
    ensures forall c :: 0 <= c < |cells| ==> cells[c] != Unknown
    ensures forall c :: 0 <= c < |cells| ==> (cells[c] == Boundary <==> Intersected(g, c))
    ensures LastSeed(d, g, Size(d)) <= 0 ==> forall c :: 0 <= c < |cells| ==> cells[c] != Outside
  {
    var labelled, seed := LabelCells(d, g);
    cells := Resolve(d, g, labelled, seed, seed > 0);
  }

  /** The surface-mesh voxelisation with the flood guard corrected to accept
      every seed index, including 0. */
  method Voxelize(d: Dims, g: Geometry) returns (cells: seq<Label>)
    ensures cells == FinalLabels(d, g, LastSeed(d, g, Size(d)) >= 0)
    ensures forall c :: 0 <= c < |cells| ==> cells[c] != Unknown
    ensures forall c :: 0 <= c < |cells| ==> (cells[c] == Boundary <==> Intersected(g, c))
  {
    var labelled, seed := LabelCells(d, g);
    cells := Resolve(d, g, labelled, seed, seed >= 0);
  }

  /** A one-cell grid that no element touches: its only cell is a shell cell
      and the seed, but the guard `seed > 0` skips the flood and the residual
      pass labels it INSIDE; with the corrected guard it is OUTSIDE. */
  lemma SeedZeroSkipsFlood()
    ensures var d := Dims(1, 1, 1);
            var g := Geometry((c: nat) => [], (c: nat, e: nat) => false);
            && LastSeed(d, g, Size(d)) == 0
            && SeedCandidate(d, g, 0)
            && FinalLabels(d, g, LastSeed(d, g, Size(d)) > 0)[0] == Inside
            && FinalLabels(d, g, LastSeed(d, g, Size(d)) >= 0)[0] == Outside
  {
    var d := Dims(1, 1, 1);
    var g := Geometry((c: nat) => [], (c: nat, e: nat) => false);
    assert Deserialize(d, 0) == Ijk(0, 0, 0);
    assert IsPath(d, Labelled(d, g), [0]);
  }

  /** With the corrected guard, whenever some non-BOUNDARY shell cell exists
      the flood runs and its seed ends OUTSIDE. */
  lemma SeedEndsOutside(d: Dims, g: Geometry, c: nat)
    requires c < Size(d) && SeedCandidate(d, g, c)
    ensures LastSeed(d, g, Size(d)) >= 0
    ensures FinalLabels(d, g, true)[LastSeed(d, g, Size(d))] == Outside
  {
    var seed := LastSeed(d, g, Size(d));
    assert IsPath(d, Labelled(d, g), [seed]);
  }

  /** The two guards disagree only when the seed is cell 0. */
  lemma GuardsAgreeOffZero(d: Dims, g: Geometry)
    requires LastSeed(d, g, Size(d)) != 0
    ensures FinalLabels(d, g, LastSeed(d, g, Size(d)) > 0) == FinalLabels(d, g, LastSeed(d, g, Size(d)) >= 0)
  {
  }
}
