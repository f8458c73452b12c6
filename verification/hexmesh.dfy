/** The hexahedral mesh's element tables (the local faces and edges of a
    hexahedron) and its per-element and element-count accessors. */
module Hexmesh {
  /** The 6 quad faces of a hexahedron as local vertex ids 0..7. */
  const HEXA_FACES: seq<seq<nat>> :=
    [ [0, 3, 2, 1],
      [1, 2, 6, 5],
      [4, 5, 6, 7],
      [3, 0, 4, 7],
      [0, 1, 5, 4],
      [2, 3, 7, 6] ]

  /** The 12 edges of a hexahedron as pairs of local vertex ids. */
  const HEXA_EDGES: seq<(nat, nat)> :=
    [ (0, 1), (1, 2), (2, 3), (3, 0),
      (4, 5), (5, 6), (6, 7), (7, 4),
      (0, 4), (1, 5), (2, 6), (3, 7) ]

  /** Every face row lists 4 distinct local vertex ids in 0..7. */
  lemma HexaFacesWellFormed()
    ensures |HEXA_FACES| == 6
    ensures forall i :: 0 <= i < 6 ==> |HEXA_FACES[i]| == 4
    ensures forall i, k :: 0 <= i < 6 && 0 <= k < 4 ==> HEXA_FACES[i][k] < 8
    ensures forall i, k, l :: 0 <= i < 6 && 0 <= k < l < 4 ==> HEXA_FACES[i][k] != HEXA_FACES[i][l]
  {
    forall i | 0 <= i < 6
      ensures |HEXA_FACES[i]| == 4
      ensures forall k :: 0 <= k < 4 ==> HEXA_FACES[i][k] < 8
      ensures forall k, l :: 0 <= k < l < 4 ==> HEXA_FACES[i][k] != HEXA_FACES[i][l]
    {
      assert i == 0 || i == 1 || i == 2 || i == 3 || i == 4 || i == 5;
    }
  }

  /** Every edge row is a pair of distinct local vertex ids in 0..7. */
  lemma HexaEdgesWellFormed()
    ensures |HEXA_EDGES| == 12
    ensures forall e :: 0 <= e < 12 ==> HEXA_EDGES[e].0 < 8 && HEXA_EDGES[e].1 < 8
    ensures forall e :: 0 <= e < 12 ==> HEXA_EDGES[e].0 != HEXA_EDGES[e].1
  {
    forall e | 0 <= e < 12
      ensures HEXA_EDGES[e].0 < 8 && HEXA_EDGES[e].1 < 8
      ensures HEXA_EDGES[e].0 != HEXA_EDGES[e].1
    {
      assert e < 4 || 4 <= e < 8 || 8 <= e;
    }
  }

  /** Side `s` of face row `i`, walked in the row's order. */
  function Side(i: nat, s: nat): (nat, nat)
    requires i < 6 && s < 4
  {
    HexaFacesWellFormed();
    (HEXA_FACES[i][s], HEXA_FACES[i][(s + 1) % 4])
  }

  /** The 24 directed sides of the face rows, row by row. The face rows are
      consistently oriented: a face shared by two hexahedra is met in opposite
      orders, which is what the winding flags record. */
  const HEXA_SIDES: seq<(nat, nat)> :=
    [ (0, 3), (3, 2), (2, 1), (1, 0),
      (1, 2), (2, 6), (6, 5), (5, 1),
      (4, 5), (5, 6), (6, 7), (7, 4),
      (3, 0), (0, 4), (4, 7), (7, 3),
      (0, 1), (1, 5), (5, 4), (4, 0),
      (2, 3), (3, 7), (7, 6), (6, 2) ]

  lemma SidesListed()
    ensures |HEXA_SIDES| == 24
    ensures forall i, s :: 0 <= i < 6 && 0 <= s < 4 ==> Side(i, s) == HEXA_SIDES[4 * i + s]
  {
    forall i, s | 0 <= i < 6 && 0 <= s < 4
      ensures Side(i, s) == HEXA_SIDES[4 * i + s]
    {
      assert i == 0 || i == 1 || i == 2 || i == 3 || i == 4 || i == 5;
      assert s == 0 || s == 1 || s == 2 || s == 3;
    }
  }

  /** The position in HEXA_SIDES of the directed side (u, v), or 24 when no
      face walks from u to v. */
  const SIDE_POSITION: seq<seq<nat>> :=
    [
      [24, 16, 24,  0, 13, 24, 24, 24],
      [ 3, 24,  4, 24, 24, 17, 24, 24],
      [24,  2, 24, 20, 24, 24,  5, 24],
      [12, 24,  1, 24, 24, 24, 24, 21],
      [19, 24, 24, 24, 24,  8, 24, 14],
      [24,  7, 24, 24, 18, 24,  9, 24],
      [24, 24, 23, 24, 24,  6, 24, 10],
      [24, 24, 24, 15, 11, 24, 22, 24] ]

  lemma SidesTableDistinct()
    ensures forall a, b :: 0 <= a < b < |HEXA_SIDES| ==> HEXA_SIDES[a] != HEXA_SIDES[b]
  {
    forall k | 0 <= k < 24
      ensures HEXA_SIDES[k].0 < 8 && HEXA_SIDES[k].1 < 8
      ensures SIDE_POSITION[HEXA_SIDES[k].0][HEXA_SIDES[k].1] == k
    {
      assert k < 6 || 6 <= k < 12 || 12 <= k < 18 || 18 <= k;
    }
  }

  /** No directed side is walked by two faces, nor twice by one face. */
  lemma SidesDistinct()
    ensures forall i, s, j, t :: 0 <= i < 6 && 0 <= s < 4 && 0 <= j < 6 && 0 <= t < 4 && Side(i, s) == Side(j, t) ==>
              i == j && s == t
  {
    SidesListed();
    SidesTableDistinct();
    forall i, s, j, t | 0 <= i < 6 && 0 <= s < 4 && 0 <= j < 6 && 0 <= t < 4 && Side(i, s) == Side(j, t)
      ensures i == j && s == t
    {
      var a, b := 4 * i + s, 4 * j + t;
      assert HEXA_SIDES[a] == HEXA_SIDES[b];
      assert a == b;
    }
  }

  /** Every side of a face is an edge of HEXA_EDGES, in one direction or the other. */
  lemma SidesAreEdges()
    ensures forall i, s :: 0 <= i < 6 && 0 <= s < 4 ==>
              Side(i, s) in HEXA_EDGES || (Side(i, s).1, Side(i, s).0) in HEXA_EDGES
  {
    SidesListed();
    forall k | 0 <= k < 24
      ensures HEXA_SIDES[k] in HEXA_EDGES || (HEXA_SIDES[k].1, HEXA_SIDES[k].0) in HEXA_EDGES
    {
      assert k < 6 || 6 <= k < 12 || 12 <= k < 18 || 18 <= k;
    }
  }

  /** Some face walks from `p.0` to `p.1`. */
  predicate Walked(p: (nat, nat))
  {
    exists i, s :: 0 <= i < 6 && 0 <= s < 4 && Side(i, s) == p
  }

  /** Both directions of every edge have a position in HEXA_SIDES. */
  lemma EdgePositions()
    ensures forall e :: 0 <= e < 12 ==>
              var (u, v) := HEXA_EDGES[e];
              && u < 8 && v < 8
              && SIDE_POSITION[u][v] < 24 && HEXA_SIDES[SIDE_POSITION[u][v]] == (u, v)
              && SIDE_POSITION[v][u] < 24 && HEXA_SIDES[SIDE_POSITION[v][u]] == (v, u)
  {
    forall e | 0 <= e < 12
      ensures var (u, v) := HEXA_EDGES[e];
              && u < 8 && v < 8
              && SIDE_POSITION[u][v] < 24 && HEXA_SIDES[SIDE_POSITION[u][v]] == (u, v)
              && SIDE_POSITION[v][u] < 24 && HEXA_SIDES[SIDE_POSITION[v][u]] == (v, u)
    {
      assert e < 4 || 4 <= e < 8 || 8 <= e;
    }
  }

  /** The side at position k of HEXA_SIDES is walked by some face. */
  lemma ListedSideWalked(k: nat)
    requires k < 24
    ensures Walked(HEXA_SIDES[k])
  {
    SidesListed();
    var i, s := k / 4, k % 4;
    assert k == 4 * i + s;
    assert Side(i, s) == HEXA_SIDES[k];
  }

  /** Every edge of HEXA_EDGES is walked by the faces in both directions. */
  lemma EdgesWalkedBothWays()
    ensures forall e :: 0 <= e < 12 ==> Walked(HEXA_EDGES[e]) && Walked((HEXA_EDGES[e].1, HEXA_EDGES[e].0))
  {
    EdgePositions();
    forall e | 0 <= e < 12
      ensures Walked(HEXA_EDGES[e]) && Walked((HEXA_EDGES[e].1, HEXA_EDGES[e].0))
    {
      var (u, v) := HEXA_EDGES[e];
      ListedSideWalked(SIDE_POSITION[u][v]);
      ListedSideWalked(SIDE_POSITION[v][u]);
    }
  }

  /** A vertex position; only the number of vertices matters here. */
  datatype Vec3 = Vec3(x: real, y: real, z: real)

  /** The stored element lists of a hexahedral mesh: edges as flat vertex
      pairs, boundary faces as flat vertex quadruples, hexahedra as flat
      vertex octuples. */
  datatype Hexmesh = Hexmesh(verts: seq<Vec3>, edges: seq<nat>, faces: seq<nat>, polys: seq<nat>)

  /** Every face of a hexahedron is a quad, as the HEXA_FACES rows are. */
  function VertsPerFace(): (r: nat)
    ensures forall i :: 0 <= i < |HEXA_FACES| ==> |HEXA_FACES[i]| == r
  {
    HexaFacesWellFormed();
    4
  }

  /** Local vertex `v` is a corner of some face row. */
  predicate OnSomeFace(v: nat)
  {
    exists i :: 0 <= i < |HEXA_FACES| && v in HEXA_FACES[i]
  }

  /** A hexahedron has exactly the local vertex ids the tables use. */
  function VertsPerPoly(): (r: nat)
    ensures forall i, k :: 0 <= i < |HEXA_FACES| && 0 <= k < |HEXA_FACES[i]| ==> HEXA_FACES[i][k] < r
    ensures forall v :: 0 <= v < r ==> OnSomeFace(v)
  {
    HexaFacesWellFormed();
    assert 0 in HEXA_FACES[0] && 1 in HEXA_FACES[0] && 2 in HEXA_FACES[0] && 3 in HEXA_FACES[0];
    assert 4 in HEXA_FACES[2] && 5 in HEXA_FACES[2] && 6 in HEXA_FACES[2] && 7 in HEXA_FACES[2];
    8
  }

  /** The number of rows of HEXA_EDGES. */
  function EdgesPerPoly(): (r: nat)
    ensures r == |HEXA_EDGES|
  {
    12
  }

  /** The number of rows of HEXA_FACES. */
  function FacesPerPoly(): (r: nat)
    ensures r == |HEXA_FACES|
  {
    6
  }

  function NumVerts(m: Hexmesh): nat
  {
    |m.verts|
  }

  /** The number of complete vertex pairs in the edge list. */
  function NumEdges(m: Hexmesh): (r: nat)
    ensures 2 * r <= |m.edges| < 2 * r + 2
  {
    |m.edges| / 2
  }

  /** The number of complete quads in the face list; a trailing partial quad
      is not counted. */
  function NumFaces(m: Hexmesh): (r: nat)
    ensures r * VertsPerFace() <= |m.faces| < (r + 1) * VertsPerFace()
  {
    |m.faces| / VertsPerFace()
  }

  /** The number of complete hexahedra in the poly list; trailing ids that do
      not complete one are not counted. */
  function NumPolys(m: Hexmesh): (r: nat)
    ensures r * VertsPerPoly() <= |m.polys| < (r + 1) * VertsPerPoly()
  {
    |m.polys| / VertsPerPoly()
  }

  /** The concatenation of a list of records. */
  function Flatten<T>(rows: seq<seq<T>>): seq<T>
  {
    if |rows| == 0 then [] else Flatten(rows[..|rows| - 1]) + rows[|rows| - 1]
  }

  lemma {:induction false} FlattenLength<T>(rows: seq<seq<T>>, width: nat)
    requires forall r :: 0 <= r < |rows| ==> |rows[r]| == width
    ensures |Flatten(rows)| == width * |rows|
  {
    if |rows| > 0 {
      FlattenLength(rows[..|rows| - 1], width);
    }
  }

  /** Storing n quads back to back gives a mesh with n faces, and n
      hexahedra give n polys, whatever else the mesh holds. */
  lemma CountsOfFlattenedRecords(m: Hexmesh, quads: seq<seq<nat>>, hexes: seq<seq<nat>>)
    requires forall r :: 0 <= r < |quads| ==> |quads[r]| == VertsPerFace()
    requires forall r :: 0 <= r < |hexes| ==> |hexes[r]| == VertsPerPoly()
    requires m.faces == Flatten(quads) && m.polys == Flatten(hexes)
    ensures NumFaces(m) == |quads|
    ensures NumPolys(m) == |hexes|
  {
    FlattenLength(quads, VertsPerFace());
    FlattenLength(hexes, VertsPerPoly());
  }
}
