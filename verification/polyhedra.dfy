/** Conversion of a flat list of hexahedra (8 vertex ids each) into general
    polyhedra: a list of unique faces deduplicated on their sorted vertex key,
    the 6 face ids of each hexahedron, and per-face winding flags telling
    whether the hexahedron is the one that introduced the face. */
module HexToPolyhedra {
  import opened FaceKey
  import opened Hexmesh

  /** Face `i` of hexahedron `h`: its global vertex ids in HEXA_FACES order. */
  function HexFace(hexa: seq<nat>, h: nat, i: nat): (f: seq<nat>)
    requires 8 * h + 8 <= |hexa| && i < 6
    ensures |f| == 4
    ensures forall k :: 0 <= k < 4 ==> HEXA_FACES[i][k] < 8 && f[k] == hexa[8 * h + HEXA_FACES[i][k]]
  {
    HexaFacesWellFormed();
    seq(4, (k: int) requires 0 <= k < 4 => hexa[8 * h + HEXA_FACES[i][k]])
  }

  /** The faces of the first `n` hexahedra in visiting order: hexahedron by
      hexahedron, 6 faces each, so face `i` of hexahedron `h` is slot 6h+i. */
  function FaceSlots(hexa: seq<nat>, n: nat): (fs: seq<seq<nat>>)
    requires 8 * n <= |hexa|
    ensures |fs| == 6 * n
  {
    seq(6 * n, (j: int) requires 0 <= j < 6 * n => HexFace(hexa, j / 6, j % 6))
  }

  /** Slot 6h+i holds face i of hexahedron h. */
  lemma SlotFace(hexa: seq<nat>, n: nat, h: nat, i: nat)
    requires 8 * n <= |hexa| && h < n && i < 6
    ensures 6 * h + i < |FaceSlots(hexa, n)|
    ensures FaceSlots(hexa, n)[6 * h + i] == HexFace(hexa, h, i)
  {
    assert (6 * h + i) / 6 == h && (6 * h + i) % 6 == i;
  }

  /** The deduplication key of a face. The conversion uses the sorted
      vertex ids (FaceKey.Sort); the bookkeeping below holds for any key. */
  type KeyFn = seq<nat> -> seq<nat>

  /** The state of the deduplication after some faces: the unique faces in
      order of first appearance, the id and winding flag given to each face
      visited so far, and the map from key to face id. */
  datatype Dedup = Dedup(faces: seq<seq<nat>>, ids: seq<nat>, winding: seq<bool>, fmap: map<seq<nat>, nat>)

  /** Visits one more face: a key not seen before gets the fresh id
      |fmap|, its face is appended and the flag is true; a known key reuses
      its id with flag false. */
  function AddFace(keyOf: KeyFn, st: Dedup, f: seq<nat>): Dedup
  {
    var k := keyOf(f);
    if k in st.fmap then
      Dedup(st.faces, st.ids + [st.fmap[k]], st.winding + [false], st.fmap)
    else
      var freshId := |st.fmap|;
      Dedup(st.faces + [f], st.ids + [freshId], st.winding + [true], st.fmap[k := freshId])
  }

  function CountTrue(bs: seq<bool>): nat
  {
    if |bs| == 0 then 0 else CountTrue(bs[..|bs| - 1]) + (if bs[|bs| - 1] then 1 else 0)
  }

  lemma CountTrueAppend(bs: seq<bool>, b: bool)
    ensures CountTrue(bs + [b]) == CountTrue(bs) + (if b then 1 else 0)
  {
    assert (bs + [b])[..|bs|] == bs;
  }

  /** Face slot `j` is the first slot with its key. */
  predicate FirstWithKey(keyOf: KeyFn, fs: seq<seq<nat>>, j: nat)
    requires j < |fs|
  {
    forall j' :: 0 <= j' < j ==> keyOf(fs[j']) != keyOf(fs[j])
  }

  predicate Shaped(fs: seq<seq<nat>>, st: Dedup)
  {
    |st.ids| == |fs| && |st.winding| == |fs|
  }

  /** The map and the face list describe each other: the ids are exactly the
      positions of the face list, and each face sits under its own key. */
  predicate MapMatchesFaces(keyOf: KeyFn, st: Dedup)
  {
    && |st.faces| == |st.fmap|
    && (forall k :: k in st.fmap ==> st.fmap[k] < |st.faces| && keyOf(st.faces[st.fmap[k]]) == k)
    && (forall m :: 0 <= m < |st.faces| ==> keyOf(st.faces[m]) in st.fmap && st.fmap[keyOf(st.faces[m])] == m)
  }

  /** Some visited slot has key `k`. */
  predicate KeySeen(keyOf: KeyFn, fs: seq<seq<nat>>, k: seq<nat>)
  {
    exists j :: 0 <= j < |fs| && keyOf(fs[j]) == k
  }

  /** Every key of the map comes from a visited slot. */
  predicate KeysFromSlots(keyOf: KeyFn, fs: seq<seq<nat>>, st: Dedup)
  {
    forall k :: k in st.fmap ==> KeySeen(keyOf, fs, k)
  }

  /** Every visited slot got the id its key maps to. */
  predicate IdsByKey(keyOf: KeyFn, fs: seq<seq<nat>>, st: Dedup)
    requires Shaped(fs, st)
  {
    forall j :: 0 <= j < |fs| ==> keyOf(fs[j]) in st.fmap && st.ids[j] == st.fmap[keyOf(fs[j])]
  }

  /** The flag of a slot is true exactly when it is the first with its key,
      and then the stored face is that slot's face, in its own order. */
  predicate WindingMarksFirst(keyOf: KeyFn, fs: seq<seq<nat>>, st: Dedup)
    requires Shaped(fs, st)
  {
    && (forall j :: 0 <= j < |fs| ==> (st.winding[j] <==> FirstWithKey(keyOf, fs, j)))
    && (forall j :: 0 <= j < |fs| && st.winding[j] ==> st.ids[j] < |st.faces| && st.faces[st.ids[j]] == fs[j])
  }

  /** Face `m` was introduced by some visited slot. */
  predicate Introduced(keyOf: KeyFn, fs: seq<seq<nat>>, st: Dedup, m: nat)
    requires Shaped(fs, st)
  {
    exists j :: 0 <= j < |fs| && st.winding[j] && st.ids[j] == m
  }

  predicate AllIntroduced(keyOf: KeyFn, fs: seq<seq<nat>>, st: Dedup)
    requires Shaped(fs, st)
  {
    forall m :: 0 <= m < |st.faces| ==> Introduced(keyOf, fs, st, m)
  }

  /** A slot with flag true got as id the number of faces stored before it:
      the size of the map at that point. */
  predicate FreshIdsCount(st: Dedup)
  {
    forall j :: 0 <= j < |st.winding| && st.winding[j] ==> j < |st.ids| && st.ids[j] == CountTrue(st.winding[..j])
  }

  /** What the deduplication state records about the visited slots `fs`. */
  predicate DedupInvariant(keyOf: KeyFn, fs: seq<seq<nat>>, st: Dedup)
  {
    && Shaped(fs, st)
    && MapMatchesFaces(keyOf, st)
    && KeysFromSlots(keyOf, fs, st)
    && IdsByKey(keyOf, fs, st)
    && WindingMarksFirst(keyOf, fs, st)
    && AllIntroduced(keyOf, fs, st)
    && CountTrue(st.winding) == |st.faces|
    && FreshIdsCount(st)
  }

  lemma SeenKeepsMap(keyOf: KeyFn, fs: seq<seq<nat>>, st: Dedup, f: seq<nat>)
    requires Shaped(fs, st) && MapMatchesFaces(keyOf, st) && KeysFromSlots(keyOf, fs, st) && IdsByKey(keyOf, fs, st)
    requires keyOf(f) in st.fmap
    ensures MapMatchesFaces(keyOf, AddFace(keyOf, st, f))
    ensures KeysFromSlots(keyOf, fs + [f], AddFace(keyOf, st, f))
    ensures IdsByKey(keyOf, fs + [f], AddFace(keyOf, st, f))
  {
    var fs', st' := fs + [f], AddFace(keyOf, st, f);
    forall k' | k' in st'.fmap
      ensures KeySeen(keyOf, fs', k')
    {
      var j :| 0 <= j < |fs| && keyOf(fs[j]) == k';
      assert fs'[j] == fs[j];
    }
  }

  lemma SeenKeepsWinding(keyOf: KeyFn, fs: seq<seq<nat>>, st: Dedup, f: seq<nat>)
    requires Shaped(fs, st) && KeysFromSlots(keyOf, fs, st) && WindingMarksFirst(keyOf, fs, st) && AllIntroduced(keyOf, fs, st)
    requires keyOf(f) in st.fmap
    ensures WindingMarksFirst(keyOf, fs + [f], AddFace(keyOf, st, f))
    ensures AllIntroduced(keyOf, fs + [f], AddFace(keyOf, st, f))
  {
    var fs', st' := fs + [f], AddFace(keyOf, st, f);
    assert KeySeen(keyOf, fs, keyOf(f));
    var j0 :| 0 <= j0 < |fs| && keyOf(fs[j0]) == keyOf(f);
    assert !FirstWithKey(keyOf, fs', |fs|) by {
      assert keyOf(fs'[j0]) == keyOf(fs'[|fs|]);
    }
    forall j | 0 <= j < |fs'|
      ensures st'.winding[j] <==> FirstWithKey(keyOf, fs', j)
    {
      if j < |fs| {
        assert forall j' :: 0 <= j' <= j ==> fs'[j'] == fs[j'];
      }
    }
    forall m | 0 <= m < |st'.faces|
      ensures Introduced(keyOf, fs', st', m)
    {
      assert Introduced(keyOf, fs, st, m);
      var j :| 0 <= j < |fs| && st.winding[j] && st.ids[j] == m;
      assert st'.winding[j] && st'.ids[j] == m;
    }
  }

  lemma FreshExtendsMap(keyOf: KeyFn, st: Dedup, f: seq<nat>)
    requires MapMatchesFaces(keyOf, st)
    requires keyOf(f) !in st.fmap
    ensures MapMatchesFaces(keyOf, AddFace(keyOf, st, f))
  {
    var st', k := AddFace(keyOf, st, f), keyOf(f);
    assert st'.faces == st.faces + [f] && st'.fmap == st.fmap[k := |st.fmap|];
    assert |st'.fmap| == |st.fmap| + 1;
    forall k' | k' in st'.fmap
      ensures st'.fmap[k'] < |st'.faces| && keyOf(st'.faces[st'.fmap[k']]) == k'
    {
      if k' != k {
        assert st'.faces[st.fmap[k']] == st.faces[st.fmap[k']];
      }
    }
    forall m | 0 <= m < |st'.faces|
      ensures keyOf(st'.faces[m]) in st'.fmap && st'.fmap[keyOf(st'.faces[m])] == m
    {
      if m < |st.faces| {
        assert st'.faces[m] == st.faces[m];
      }
    }
  }

  lemma FreshKeepsKeys(keyOf: KeyFn, fs: seq<seq<nat>>, st: Dedup, f: seq<nat>)
    requires Shaped(fs, st) && KeysFromSlots(keyOf, fs, st) && IdsByKey(keyOf, fs, st)
    requires keyOf(f) !in st.fmap
    ensures KeysFromSlots(keyOf, fs + [f], AddFace(keyOf, st, f))
    ensures IdsByKey(keyOf, fs + [f], AddFace(keyOf, st, f))
  {
    var fs', st', k := fs + [f], AddFace(keyOf, st, f), keyOf(f);
    forall k' | k' in st'.fmap
      ensures KeySeen(keyOf, fs', k')
    {
      if k' == k {
        assert keyOf(fs'[|fs|]) == k;
      } else {
        var j :| 0 <= j < |fs| && keyOf(fs[j]) == k';
        assert fs'[j] == fs[j];
      }
    }
  }

  lemma FreshKeepsWinding(keyOf: KeyFn, fs: seq<seq<nat>>, st: Dedup, f: seq<nat>)
    requires Shaped(fs, st) && MapMatchesFaces(keyOf, st) && IdsByKey(keyOf, fs, st) && WindingMarksFirst(keyOf, fs, st) && AllIntroduced(keyOf, fs, st)
    requires keyOf(f) !in st.fmap
    ensures WindingMarksFirst(keyOf, fs + [f], AddFace(keyOf, st, f))
    ensures AllIntroduced(keyOf, fs + [f], AddFace(keyOf, st, f))
  {
    var fs', st' := fs + [f], AddFace(keyOf, st, f);
    assert st'.faces == st.faces + [f] && |st.faces| == |st.fmap|;
    forall j | 0 <= j < |fs'|
      ensures st'.winding[j] <==> FirstWithKey(keyOf, fs', j)
    {
      if j < |fs| {
        assert forall j' :: 0 <= j' <= j ==> fs'[j'] == fs[j'];
      } else {
        assert forall j' :: 0 <= j' < |fs| ==> keyOf(fs'[j']) in st.fmap;
      }
    }
    forall m | 0 <= m < |st'.faces|
      ensures Introduced(keyOf, fs', st', m)
    {
      if m < |st.faces| {
        assert Introduced(keyOf, fs, st, m);
      var j :| 0 <= j < |fs| && st.winding[j] && st.ids[j] == m;
        assert st'.winding[j] && st'.ids[j] == m;
      } else {
        assert st'.winding[|fs|] && st'.ids[|fs|] == m;
      }
    }
  }

  /** Visiting a face adds one flag, true exactly when a face is stored. */
  lemma AddFaceCounts(keyOf: KeyFn, st: Dedup, f: seq<nat>)
    requires CountTrue(st.winding) == |st.faces|
    ensures CountTrue(AddFace(keyOf, st, f).winding) == |AddFace(keyOf, st, f).faces|
  {
    var st' := AddFace(keyOf, st, f);
    var b := keyOf(f) !in st.fmap;
    assert st'.winding == st.winding + [b];
    CountTrueAppend(st.winding, b);
  }

  /** A fresh id is the number of faces stored before the visit. */
  lemma AddFaceKeepsFreshIds(keyOf: KeyFn, st: Dedup, f: seq<nat>)
    requires |st.ids| == |st.winding| && FreshIdsCount(st)
    requires CountTrue(st.winding) == |st.faces| == |st.fmap|
    ensures FreshIdsCount(AddFace(keyOf, st, f))
  {
    var st' := AddFace(keyOf, st, f);
    forall j | 0 <= j < |st'.winding| && st'.winding[j]
      ensures j < |st'.ids| && st'.ids[j] == CountTrue(st'.winding[..j])
    {
      if j < |st.winding| {
        assert st'.winding[..j] == st.winding[..j];
        assert st'.ids[j] == st.ids[j];
      } else {
        assert st'.winding[..j] == st.winding;
      }
    }
  }

  /** Visiting one more face keeps the invariant. */
  lemma AddFaceKeepsInvariant(keyOf: KeyFn, fs: seq<seq<nat>>, st: Dedup, f: seq<nat>)
    requires DedupInvariant(keyOf, fs, st)
    ensures DedupInvariant(keyOf, fs + [f], AddFace(keyOf, st, f))
  {
    AddFaceCounts(keyOf, st, f);
    AddFaceKeepsFreshIds(keyOf, st, f);
    if keyOf(f) in st.fmap {
      SeenKeepsMap(keyOf, fs, st, f);
      SeenKeepsWinding(keyOf, fs, st, f);
    } else {
      FreshExtendsMap(keyOf, st, f);
      FreshKeepsKeys(keyOf, fs, st, f);
      FreshKeepsWinding(keyOf, fs, st, f);
    }
  }

  /** The deduplication of `fs`, visiting the faces in order. */
  function DedupFaces(keyOf: KeyFn, fs: seq<seq<nat>>): Dedup
  {
    if |fs| == 0 then Dedup([], [], [], map[])
    else AddFace(keyOf, DedupFaces(keyOf, fs[..|fs| - 1]), fs[|fs| - 1])
  }

  /** The invariant holds after any number of visited faces. */
  lemma {:induction false} DedupFacesInvariant(keyOf: KeyFn, fs: seq<seq<nat>>)
    ensures DedupInvariant(keyOf, fs, DedupFaces(keyOf, fs))
  {
    if |fs| > 0 {
      var prefix := fs[..|fs| - 1];
      assert fs == prefix + [fs[|fs| - 1]];
      DedupFacesInvariant(keyOf, prefix);
      AddFaceKeepsInvariant(keyOf, prefix, DedupFaces(keyOf, prefix), fs[|fs| - 1]);
    }
  }

  /** One id and one flag per visited face; every id names a stored face. */
  lemma DedupShape(keyOf: KeyFn, fs: seq<seq<nat>>)
    ensures |DedupFaces(keyOf, fs).ids| == |fs| && |DedupFaces(keyOf, fs).winding| == |fs|
    ensures forall j :: 0 <= j < |fs| ==> DedupFaces(keyOf, fs).ids[j] < |DedupFaces(keyOf, fs).faces|
  {
    DedupFacesInvariant(keyOf, fs);
  }

  /** Two visited faces share an id exactly when they share a key. */
  lemma DedupSameId(keyOf: KeyFn, fs: seq<seq<nat>>, j1: nat, j2: nat)
    requires j1 < |fs| && j2 < |fs|
    ensures |DedupFaces(keyOf, fs).ids| == |fs|
    ensures DedupFaces(keyOf, fs).ids[j1] == DedupFaces(keyOf, fs).ids[j2] <==> keyOf(fs[j1]) == keyOf(fs[j2])
  {
    DedupFacesInvariant(keyOf, fs);
    var st := DedupFaces(keyOf, fs);
    var k1, k2 := keyOf(fs[j1]), keyOf(fs[j2]);
    assert st.fmap[k1] == st.fmap[k2] ==> k1 == keyOf(st.faces[st.fmap[k1]]) == k2;
  }

  /** The flag of a visited face is true exactly when no earlier face has its
      key, and then the face is stored as visited, under the id counting the
      faces stored before it. */
  lemma DedupWinding(keyOf: KeyFn, fs: seq<seq<nat>>, j: nat)
    requires j < |fs|
    ensures |DedupFaces(keyOf, fs).ids| == |fs| && |DedupFaces(keyOf, fs).winding| == |fs|
    ensures DedupFaces(keyOf, fs).winding[j] <==> FirstWithKey(keyOf, fs, j)
    ensures DedupFaces(keyOf, fs).winding[j] ==>
              DedupFaces(keyOf, fs).ids[j] < |DedupFaces(keyOf, fs).faces| &&
              DedupFaces(keyOf, fs).faces[DedupFaces(keyOf, fs).ids[j]] == fs[j]
    ensures DedupFaces(keyOf, fs).winding[j] ==>
              DedupFaces(keyOf, fs).ids[j] == CountTrue(DedupFaces(keyOf, fs).winding[..j])
  {
    DedupFacesInvariant(keyOf, fs);
  }

  /** Every stored face was introduced by a visited face with flag true, and
      the true flags number the stored faces. */
  lemma DedupIntroduced(keyOf: KeyFn, fs: seq<seq<nat>>)
    ensures |DedupFaces(keyOf, fs).ids| == |fs| && |DedupFaces(keyOf, fs).winding| == |fs|
    ensures forall m :: 0 <= m < |DedupFaces(keyOf, fs).faces| ==> Introduced(keyOf, fs, DedupFaces(keyOf, fs), m)
    ensures CountTrue(DedupFaces(keyOf, fs).winding) == |DedupFaces(keyOf, fs).faces|
  {
    DedupFacesInvariant(keyOf, fs);
  }

  /** Distinct stored faces have distinct keys. */
  lemma DedupKeysDistinct(keyOf: KeyFn, fs: seq<seq<nat>>, m1: nat, m2: nat)
    requires m1 < m2 < |DedupFaces(keyOf, fs).faces|
    ensures keyOf(DedupFaces(keyOf, fs).faces[m1]) != keyOf(DedupFaces(keyOf, fs).faces[m2])
  {
    DedupFacesInvariant(keyOf, fs);
  }

  /** The per-hexahedron lists: consecutive runs of 6. */
  function Chunks<T>(xs: seq<T>, n: nat): (rows: seq<seq<T>>)
    requires |xs| == 6 * n
    ensures |rows| == n
    ensures forall h :: 0 <= h < n ==> |rows[h]| == 6
    ensures forall h, i :: 0 <= h < n && 0 <= i < 6 ==> rows[h][i] == xs[6 * h + i]
  {
    seq(n, (h: int) requires 0 <= h < n => xs[6 * h .. 6 * h + 6])
  }

  /** Cutting into runs of 6 and concatenating the runs gives back the list. */
  lemma {:induction false} FlattenChunks<T>(xs: seq<T>, n: nat)
    requires |xs| == 6 * n
    ensures Flatten(Chunks(xs, n)) == xs
  {
    if n > 0 {
      var rows, prefix := Chunks(xs, n), Chunks(xs[..6 * (n - 1)], n - 1);
      forall h | 0 <= h < n - 1
        ensures rows[h] == prefix[h]
      {
        assert forall i :: 0 <= i < 6 ==> rows[h][i] == prefix[h][i];
      }
      assert rows[..n - 1] == prefix;
      FlattenChunks(xs[..6 * (n - 1)], n - 1);
      assert rows[n - 1] == xs[6 * (n - 1)..];
      assert xs == xs[..6 * (n - 1)] + xs[6 * (n - 1)..];
    }
  }

  /** The converted mesh: the unique faces, and for each hexahedron its 6
      face ids and 6 winding flags. */
  datatype Polyhedra = Polyhedra(faces: seq<seq<nat>>, polys: seq<seq<nat>>, winding: seq<seq<bool>>)

  /** The conversion with deduplication key `keyOf`: visits face i of
      hexahedron h for h ascending, then i ascending, over the |hexa| / 8
      complete hexahedra. */
  function Convert(keyOf: KeyFn, hexa: seq<nat>): (r: Polyhedra)
    ensures |r.polys| == |hexa| / 8 && |r.winding| == |hexa| / 8
    ensures forall h :: 0 <= h < |r.polys| ==> |r.polys[h]| == 6 && |r.winding[h]| == 6
    ensures forall h, i :: 0 <= h < |r.polys| && 0 <= i < 6 ==> r.polys[h][i] < |r.faces|
  {
    var n := |hexa| / 8;
    var fs := FaceSlots(hexa, n);
    var st := DedupFaces(keyOf, fs);
    DedupShape(keyOf, fs);
    Polyhedra(st.faces, Chunks(st.ids, n), Chunks(st.winding, n))
  }

  /** from_hexahedra_to_general_polyhedra: the conversion keyed on the
      sorted vertex ids of each face. Every hexahedron gets 6 face ids and 6
      flags, and every id names a stored face. */
  function FromHexahedra(hexa: seq<nat>): (r: Polyhedra)
    ensures |r.polys| == |hexa| / 8 && |r.winding| == |hexa| / 8
    ensures forall h :: 0 <= h < |r.polys| ==> |r.polys[h]| == 6 && |r.winding[h]| == 6
    ensures forall h, i :: 0 <= h < |r.polys| && 0 <= i < 6 ==> r.polys[h][i] < |r.faces|
  {
    Convert(Sort, hexa)
  }

  /** Face i of hexahedron h is slot 6h+i of the flat deduplication. */
  lemma SlotOf(keyOf: KeyFn, hexa: seq<nat>, h: nat, i: nat)
    requires h < |hexa| / 8 && i < 6
    ensures 6 * h + i < |FaceSlots(hexa, |hexa| / 8)|
    ensures |DedupFaces(keyOf, FaceSlots(hexa, |hexa| / 8)).ids| == |FaceSlots(hexa, |hexa| / 8)|
    ensures |DedupFaces(keyOf, FaceSlots(hexa, |hexa| / 8)).winding| == |FaceSlots(hexa, |hexa| / 8)|
    ensures FaceSlots(hexa, |hexa| / 8)[6 * h + i] == HexFace(hexa, h, i)
    ensures Convert(keyOf, hexa).faces == DedupFaces(keyOf, FaceSlots(hexa, |hexa| / 8)).faces
    ensures Convert(keyOf, hexa).polys[h][i] == DedupFaces(keyOf, FaceSlots(hexa, |hexa| / 8)).ids[6 * h + i]
    ensures Convert(keyOf, hexa).winding[h][i] == DedupFaces(keyOf, FaceSlots(hexa, |hexa| / 8)).winding[6 * h + i]
  {
    SlotFace(hexa, |hexa| / 8, h, i);
    DedupShape(keyOf, FaceSlots(hexa, |hexa| / 8));
  }

  /** Two hexahedron faces get the same id exactly when they have the same
      key. */
  lemma SameIdIffSameKey(keyOf: KeyFn, hexa: seq<nat>, h1: nat, i1: nat, h2: nat, i2: nat)
    requires h1 < |hexa| / 8 && i1 < 6 && h2 < |hexa| / 8 && i2 < 6
    ensures Convert(keyOf, hexa).polys[h1][i1] == Convert(keyOf, hexa).polys[h2][i2] <==>
            keyOf(HexFace(hexa, h1, i1)) == keyOf(HexFace(hexa, h2, i2))
  {
    SlotOf(keyOf, hexa, h1, i1);
    SlotOf(keyOf, hexa, h2, i2);
    DedupSameId(keyOf, FaceSlots(hexa, |hexa| / 8), 6 * h1 + i1, 6 * h2 + i2);
  }

  /** Two hexahedron faces get the same id exactly when they have the same
      vertex ids, whatever their order. */
  lemma SameIdIffSameVertices(hexa: seq<nat>, h1: nat, i1: nat, h2: nat, i2: nat)
    requires h1 < |hexa| / 8 && i1 < 6 && h2 < |hexa| / 8 && i2 < 6
    ensures FromHexahedra(hexa).polys[h1][i1] == FromHexahedra(hexa).polys[h2][i2] <==>
            multiset(HexFace(hexa, h1, i1)) == multiset(HexFace(hexa, h2, i2))
  {
    SameIdIffSameKey(Sort, hexa, h1, i1, h2, i2);
    SameKeyIffSameVertices(HexFace(hexa, h1, i1), HexFace(hexa, h2, i2));
  }

  /** Slot (h', i') is visited before slot (h, i). */
  predicate VisitedBefore(h': nat, i': nat, h: nat, i: nat)
  {
    h' < h || (h' == h && i' < i)
  }

  /** A face is new, at the point it is visited, when no face visited before
      it has the same key. */
  predicate NewFace(keyOf: KeyFn, hexa: seq<nat>, h: nat, i: nat)
    requires h < |hexa| / 8 && i < 6
  {
    forall h', i' :: 0 <= h' < |hexa| / 8 && 0 <= i' < 6 && VisitedBefore(h', i', h, i) ==>
      keyOf(HexFace(hexa, h', i')) != keyOf(HexFace(hexa, h, i))
  }

  /** Slot 6h+i is the first with its key exactly when face i of hexahedron
      h is new. */
  lemma FirstSlotIsNew(keyOf: KeyFn, hexa: seq<nat>, h: nat, i: nat)
    requires h < |hexa| / 8 && i < 6
    ensures 6 * h + i < |FaceSlots(hexa, |hexa| / 8)|
    ensures FirstWithKey(keyOf, FaceSlots(hexa, |hexa| / 8), 6 * h + i) <==> NewFace(keyOf, hexa, h, i)
  {
    var n := |hexa| / 8;
    var fs := FaceSlots(hexa, n);
    var j := 6 * h + i;
    SlotFace(hexa, n, h, i);
    if FirstWithKey(keyOf, fs, j) {
      forall h', i' | 0 <= h' < n && 0 <= i' < 6 && VisitedBefore(h', i', h, i)
        ensures keyOf(HexFace(hexa, h', i')) != keyOf(HexFace(hexa, h, i))
      {
        SlotFace(hexa, n, h', i');
        assert 6 * h' + i' < j;
      }
    } else {
      var j' :| 0 <= j' < j && keyOf(fs[j']) == keyOf(fs[j]);
      var h', i' := j' / 6, j' % 6;
      assert j' == 6 * h' + i';
      assert VisitedBefore(h', i', h, i);
      SlotFace(hexa, n, h', i');
    }
  }

  /** The winding flag is true exactly for the face that introduces its key. */
  lemma WindingMarksNewFaces(keyOf: KeyFn, hexa: seq<nat>, h: nat, i: nat)
    requires h < |hexa| / 8 && i < 6
    ensures Convert(keyOf, hexa).winding[h][i] <==> NewFace(keyOf, hexa, h, i)
  {
    SlotOf(keyOf, hexa, h, i);
    DedupWinding(keyOf, FaceSlots(hexa, |hexa| / 8), 6 * h + i);
    FirstSlotIsNew(keyOf, hexa, h, i);
  }

  /** The face that introduces its key is stored in its own vertex order. */
  lemma NewFaceStoredAsMet(keyOf: KeyFn, hexa: seq<nat>, h: nat, i: nat)
    requires h < |hexa| / 8 && i < 6
    ensures Convert(keyOf, hexa).winding[h][i] ==>
              Convert(keyOf, hexa).faces[Convert(keyOf, hexa).polys[h][i]] == HexFace(hexa, h, i)
  {
    SlotOf(keyOf, hexa, h, i);
    DedupWinding(keyOf, FaceSlots(hexa, |hexa| / 8), 6 * h + i);
  }

  /** A face with flag true gets as id the number of flags true before it in
      visiting order, so the face list is in order of first appearance. */
  lemma FreshIdCountsNewFaces(keyOf: KeyFn, hexa: seq<nat>, h: nat, i: nat)
    requires h < |hexa| / 8 && i < 6
    ensures 6 * h + i < |Flatten(Convert(keyOf, hexa).winding)|
    ensures Convert(keyOf, hexa).winding[h][i] ==>
              Convert(keyOf, hexa).polys[h][i] == CountTrue(Flatten(Convert(keyOf, hexa).winding)[..6 * h + i])
  {
    var n := |hexa| / 8;
    var fs := FaceSlots(hexa, n);
    SlotOf(keyOf, hexa, h, i);
    DedupWinding(keyOf, fs, 6 * h + i);
    FlattenChunks(DedupFaces(keyOf, fs).winding, n);
  }

  /** For the sorted-id key: the flag is true exactly when no face visited
      before has the same vertex ids, and then the face is stored as met. */
  lemma FromHexahedraWinding(hexa: seq<nat>, h: nat, i: nat)
    requires h < |hexa| / 8 && i < 6
    ensures FromHexahedra(hexa).winding[h][i] <==>
              forall h', i' :: 0 <= h' < |hexa| / 8 && 0 <= i' < 6 && VisitedBefore(h', i', h, i) ==>
                multiset(HexFace(hexa, h', i')) != multiset(HexFace(hexa, h, i))
    ensures FromHexahedra(hexa).winding[h][i] ==>
              FromHexahedra(hexa).faces[FromHexahedra(hexa).polys[h][i]] == HexFace(hexa, h, i)
  {
    WindingMarksNewFaces(Sort, hexa, h, i);
    NewFaceStoredAsMet(Sort, hexa, h, i);
    forall h', i' | 0 <= h' < |hexa| / 8 && 0 <= i' < 6
      ensures Sort(HexFace(hexa, h', i')) == Sort(HexFace(hexa, h, i)) <==>
              multiset(HexFace(hexa, h', i')) == multiset(HexFace(hexa, h, i))
    {
      SameKeyIffSameVertices(HexFace(hexa, h', i'), HexFace(hexa, h, i));
    }
  }

  /** The unique faces have pairwise different vertex sets. */
  lemma FacesAreUnique(hexa: seq<nat>, m1: nat, m2: nat)
    requires m1 < m2
    ensures m2 < |FromHexahedra(hexa).faces| ==>
              multiset(FromHexahedra(hexa).faces[m1]) != multiset(FromHexahedra(hexa).faces[m2])
  {
    if m2 < |FromHexahedra(hexa).faces| {
      var st := DedupFaces(Sort, FaceSlots(hexa, |hexa| / 8));
      assert FromHexahedra(hexa).faces == st.faces;
      DedupKeysDistinct(Sort, FaceSlots(hexa, |hexa| / 8), m1, m2);
      SameKeyIffSameVertices(st.faces[m1], st.faces[m2]);
    }
  }

  /** Face `m` is introduced by some hexahedron face. */
  predicate IntroducedBySomeHex(r: Polyhedra, m: nat)
    requires forall h :: 0 <= h < |r.polys| ==> |r.polys[h]| == 6
    requires |r.winding| == |r.polys| && forall h :: 0 <= h < |r.winding| ==> |r.winding[h]| == 6
  {
    exists h, i :: 0 <= h < |r.polys| && 0 <= i < 6 && r.polys[h][i] == m && r.winding[h][i]
  }

  /** Every unique face is introduced by a hexahedron face with flag true. */
  lemma EveryFaceIntroduced(keyOf: KeyFn, hexa: seq<nat>)
    ensures forall m :: 0 <= m < |Convert(keyOf, hexa).faces| ==> IntroducedBySomeHex(Convert(keyOf, hexa), m)
  {
    var n, r := |hexa| / 8, Convert(keyOf, hexa);
    var fs := FaceSlots(hexa, n);
    var st := DedupFaces(keyOf, fs);
    DedupIntroduced(keyOf, fs);
    forall m | 0 <= m < |r.faces|
      ensures IntroducedBySomeHex(r, m)
    {
      assert Introduced(keyOf, fs, st, m);
      var j :| 0 <= j < |fs| && st.winding[j] && st.ids[j] == m;
      var h, i := j / 6, j % 6;
      assert j == 6 * h + i;
      SlotOf(keyOf, hexa, h, i);
    }
  }

  /** The true flags, counted over all hexahedra, number the unique faces. */
  lemma FlagsCountFaces(keyOf: KeyFn, hexa: seq<nat>)
    ensures CountTrue(Flatten(Convert(keyOf, hexa).winding)) == |Convert(keyOf, hexa).faces|
  {
    var n := |hexa| / 8;
    var fs := FaceSlots(hexa, n);
    DedupIntroduced(keyOf, fs);
    FlattenChunks(DedupFaces(keyOf, fs).winding, n);
  }

  /** Ids past the last complete hexahedron do not affect the result. */
  lemma TrailingIdsIgnored(keyOf: KeyFn, hexa: seq<nat>)
    ensures Convert(keyOf, hexa) == Convert(keyOf, hexa[..8 * (|hexa| / 8)])
  {
    var n := |hexa| / 8;
    var whole := hexa[..8 * n];
    assert |whole| / 8 == n;
    forall h, i | 0 <= h < n && 0 <= i < 6
      ensures HexFace(hexa, h, i) == HexFace(whole, h, i)
    {
    }
    assert FaceSlots(hexa, n) == FaceSlots(whole, n) by {
      forall j | 0 <= j < 6 * n
        ensures FaceSlots(hexa, n)[j] == FaceSlots(whole, n)[j]
      {
        var h, i := j / 6, j % 6;
        assert j == 6 * h + i && h < n;
        SlotFace(hexa, n, h, i);
        SlotFace(whole, n, h, i);
      }
    }
  }

  /** The conversion yields one poly per hexahedron the mesh's own counter
      sees in the same id list. */
  lemma PolyCountMatchesMesh(hexa: seq<nat>)
    ensures |FromHexahedra(hexa).polys| == NumPolys(Hexmesh([], [], [], hexa))
  {
  }
}
