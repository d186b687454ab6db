/** The vertex welder and triangulator of `AssetExporter.export_tessfaces`,
    with the dedup-by-insertion helper `appendUnique`. */
module Welder {
  import opened Types

  /** `appendUnique`: map-or-insert. A present key yields its stored index and
      `false`, leaving the map alone; an absent key is stored under the old
      map size, which is returned with `true`. */
  function AppendUnique<K(==)>(m: map<K, nat>, key: K): (r: (nat, bool, map<K, nat>))
    ensures r.1 <==> key !in m
    ensures key in r.2 && r.2[key] == r.0
    ensures key in m ==> r.0 == m[key] && r.2 == m
    ensures key !in m ==> r.0 == |m| && r.2 == m[key := |m|] && |r.2| == |m| + 1
    ensures forall k :: k in m ==> k in r.2 && r.2[k] == m[k]
  {
    if key in m then (m[key], false, m)
    else
      var index := |m|;
      (index, true, m[key := index])
  }

  // ---------------------------------------------------------------------
  // Welding keys of a mesh

  /** The welding key of corner `i` of `face`: the vertex normal on a smooth
      face, the face normal otherwise, and the first UV layer's coordinate
      when the mesh has UV layers. */
  function CornerKey(mesh: Mesh, face: Face, i: nat): Vertex
    requires FaceOk(mesh, face) && i < |face.vertices|
  {
    var v := face.vertices[i];
    Vertex(v,
           if face.smooth then mesh.vertices[v].normal else face.normal,
           if mesh.hasUV then Some(face.uvs[i]) else None)
  }

  /** The keys of the first `n` corners of `face`, in winding order. */
  function CornerKeys(mesh: Mesh, face: Face, n: nat): (keys: seq<Vertex>)
    requires FaceOk(mesh, face) && n <= |face.vertices|
    ensures |keys| == n
    ensures forall i :: 0 <= i < n ==> keys[i] == CornerKey(mesh, face, i)
  {
    if n == 0 then [] else CornerKeys(mesh, face, n - 1) + [CornerKey(mesh, face, n - 1)]
  }

  /** The corner keys of the first `n` faces, one list per face. */
  function FaceKeys(mesh: Mesh, n: nat): (kss: seq<seq<Vertex>>)
    requires MeshOk(mesh) && n <= |mesh.faces|
    ensures |kss| == n
    ensures forall f :: 0 <= f < n ==>
              kss[f] == CornerKeys(mesh, mesh.faces[f], |mesh.faces[f].vertices|)
  {
    if n == 0 then []
    else FaceKeys(mesh, n - 1) + [CornerKeys(mesh, mesh.faces[n - 1], |mesh.faces[n - 1].vertices|)]
  }

  /** The material slot of each of the first `n` faces. */
  function FaceSlots(mesh: Mesh, n: nat): (mats: seq<nat>)
    requires MeshOk(mesh) && n <= |mesh.faces|
    ensures |mats| == n
    ensures forall f :: 0 <= f < n ==> mats[f] == mesh.faces[f].materialIndex < SlotCount(mesh)
  {
    if n == 0 then [] else FaceSlots(mesh, n - 1) + [mesh.faces[n - 1].materialIndex]
  }

  /** The corner keys of every face of `mesh`. */
  function Corners(mesh: Mesh): seq<seq<Vertex>>
    requires MeshOk(mesh)
  {
    FaceKeys(mesh, |mesh.faces|)
  }

  // ---------------------------------------------------------------------
  // Welding a stream of faces, given as one key list per face

  /** The keys of the first `n` faces, in face and winding order. */
  function Concat(kss: seq<seq<Vertex>>, n: nat): seq<Vertex>
    requires n <= |kss|
  {
    if n == 0 then [] else Concat(kss, n - 1) + kss[n - 1]
  }

  /** The distinct elements of `s` in first-seen order. */
  function Dedup<T(==)>(s: seq<T>): seq<T>
  {
    if |s| == 0 then []
    else
      var d := Dedup(s[..|s| - 1]);
      if s[|s| - 1] in d then d else d + [s[|s| - 1]]
  }

  /** Position of the first `x` in `s`; `|s|` when absent. */
  function IndexOf<T(==)>(s: seq<T>, x: T): (k: nat)
    ensures k <= |s|
    ensures k < |s| <==> x in s
    ensures k < |s| ==> s[k] == x
  {
    if |s| == 0 then 0
    else if s[0] == x then 0
    else 1 + IndexOf(s[1..], x)
  }

  /** Local indices of a sequence of keys in the vertex list `vs`. */
  function Locals(vs: seq<Vertex>, keys: seq<Vertex>): (l: seq<nat>)
    ensures |l| == |keys|
    ensures forall i :: 0 <= i < |keys| ==> l[i] == IndexOf(vs, keys[i])
  {
    if |keys| == 0 then [] else Locals(vs, keys[..|keys| - 1]) + [IndexOf(vs, keys[|keys| - 1])]
  }

  /** The indices one face contributes: a triangle as it is, a quad
      `[a, b, c, d]` spliced by `faceIndices[3:] = [c, d, a]`, any other
      arity nothing (the source's branch for it raises on an undefined name). */
  function Triangulate(l: seq<nat>): (r: seq<nat>)
    ensures |l| == 3 ==> r == l
    ensures |l| == 4 ==> r == [l[0], l[1], l[2], l[2], l[3], l[0]]
    ensures |l| != 3 && |l| != 4 ==> r == []
    ensures |r| % 3 == 0
    ensures forall x :: x in r ==> x in l
  {
    if |l| == 3 then l
    else if |l| == 4 then l[..3] + [l[2], l[3], l[0]]
    else []
  }

  /** The welded vertex list after the first `n` faces. */
  function WeldedPrefix(kss: seq<seq<Vertex>>, n: nat): seq<Vertex>
    requires n <= |kss|
  {
    Dedup(Concat(kss, n))
  }

  /** The local indices of face `f`: where its keys stand in the vertex list
      once the face has been interned. */
  function FaceLocals(kss: seq<seq<Vertex>>, f: nat): seq<nat>
    requires f < |kss|
  {
    Locals(WeldedPrefix(kss, f + 1), kss[f])
  }

  /** The triangles each of the first `n` faces contributes, in face order. */
  function FaceTriangles(kss: seq<seq<Vertex>>, n: nat): (tris: seq<seq<nat>>)
    requires n <= |kss|
    ensures |tris| == n
    ensures forall f :: 0 <= f < n ==> tris[f] == Triangulate(FaceLocals(kss, f))
  {
    seq(n, f requires 0 <= f < n => Triangulate(FaceLocals(kss, f)))
  }

  /** The index list of material slot `m` after the first `n` faces, whose
      triangles are `tris` and whose slots are `mats`: the triangles of the
      faces on slot `m`, in face order. */
  function Emitted(tris: seq<seq<nat>>, mats: seq<nat>, m: nat, n: nat): seq<nat>
    requires n <= |tris| == |mats|
  {
    if n == 0 then []
    else Emitted(tris, mats, m, n - 1) + (if mats[n - 1] == m then tris[n - 1] else [])
  }

  /** Every face slot is one of `slots` list positions. */
  predicate SlotsBelow(mats: seq<nat>, slots: nat)
  {
    forall f :: 0 <= f < |mats| ==> mats[f] < slots
  }

  /** `count` empty index lists. */
  function EmptyLists(count: nat): (lists: seq<seq<nat>>)
    ensures |lists| == count
    ensures forall m :: 0 <= m < count ==> lists[m] == []
  {
    if count == 0 then [] else EmptyLists(count - 1) + [[]]
  }

  /** The `slots` index lists after the first `n` faces, as the face loop
      extends them. */
  function IndexLists(tris: seq<seq<nat>>, mats: seq<nat>, slots: nat, n: nat): (lists: seq<seq<nat>>)
    requires n <= |tris| == |mats| && SlotsBelow(mats, slots)
    ensures |lists| == slots
  {
    if n == 0 then EmptyLists(slots)
    else
      var prev := IndexLists(tris, mats, slots, n - 1);
      var mi := mats[n - 1];
      prev[mi := prev[mi] + tris[n - 1]]
  }

  /** The welded geometry: the unique vertex list and one index list per slot. */
  datatype Welded = Welded(vertices: seq<Vertex>, indices: seq<seq<nat>>)

  /** `vertex_dict` maps each vertex of `vs` to its position in `vs`. */
  ghost predicate DictIndexes(dict: map<Vertex, nat>, vs: seq<Vertex>)
  {
    (forall k :: k in dict ==> dict[k] < |vs| && vs[dict[k]] == k) &&
    (forall i :: 0 <= i < |vs| ==> vs[i] in dict) &&
    |dict| == |vs|
  }

  // ---------------------------------------------------------------------
  // Lemmas about the specification functions

  lemma {:induction false} DedupNoDup<T>(s: seq<T>)
    ensures NoDup(Dedup(s))
  {
    if |s| > 0 {
      DedupNoDup(s[..|s| - 1]);
    }
  }

  /** Welding loses no key and invents none. */
  lemma {:induction false} DedupElements<T>(s: seq<T>)
    ensures forall x :: x in Dedup(s) ==> x in s
    ensures forall x :: x in s ==> x in Dedup(s)
  {
    if |s| > 0 {
      DedupElements(s[..|s| - 1]);
      assert s == s[..|s| - 1] + [s[|s| - 1]];
    }
  }

  /** Appending a key already welded leaves the list alone; a new key goes last. */
  lemma DedupSnoc<T>(s: seq<T>, x: T)
    ensures Dedup(s + [x]) == if x in Dedup(s) then Dedup(s) else Dedup(s) + [x]
  {
    assert (s + [x])[..|s + [x]| - 1] == s;
  }

  /** Welding more keys only appends: earlier vertices keep their positions. */
  lemma {:induction false} DedupPrefix<T>(s: seq<T>, t: seq<T>)
    ensures |Dedup(s)| <= |Dedup(s + t)| && Dedup(s + t)[..|Dedup(s)|] == Dedup(s)
  {
    if |t| == 0 {
      assert s + t == s;
    } else {
      var t' := t[..|t| - 1];
      var y := t[|t| - 1];
      assert s + t == (s + t') + [y];
      DedupSnoc(s + t', y);
      DedupPrefix(s, t');
    }
  }

  /** First-seen order: vertex `i` is seen in the corner stream before vertex `j` when `i < j`. */
  lemma {:induction false} DedupFirstSeenOrder<T>(s: seq<T>, i: nat, j: nat)
    requires i < j < |Dedup(s)|
    ensures IndexOf(s, Dedup(s)[i]) < IndexOf(s, Dedup(s)[j])
  {
    var p := s[..|s| - 1];
    var x := s[|s| - 1];
    assert s == p + [x];
    var d := Dedup(p);
    DedupElements(p);
    DedupElements(s);
    DedupSnoc(p, x);
    assert d[i] in d;
    IndexOfPrefix(p, [x], d[i]);
    if x in d || j < |d| {
      assert d[j] in d;
      DedupFirstSeenOrder(p, i, j);
      IndexOfPrefix(p, [x], d[j]);
    } else {
      assert Dedup(s)[j] == x && x !in p;
      assert IndexOf(s, x) == |p| by {
        assert s[|p|] == x;
      }
    }
  }

  /** Looking a key up in a longer list finds it where it was. */
  lemma {:induction false} IndexOfPrefix<T>(s: seq<T>, t: seq<T>, x: T)
    requires x in s
    ensures IndexOf(s + t, x) == IndexOf(s, x)
  {
    if s[0] != x {
      assert (s + t)[1..] == s[1..] + t;
      IndexOfPrefix(s[1..], t, x);
    }
  }

  /** In a list without duplicates, the element at `i` is found at `i`. */
  lemma IndexOfDistinct<T>(s: seq<T>, i: nat)
    requires NoDup(s) && i < |s|
    ensures IndexOf(s, s[i]) == i
  {
  }

  lemma {:induction false} LocalsPrefix(vs: seq<Vertex>, x: Vertex, keys: seq<Vertex>)
    requires forall k :: k in keys ==> k in vs
    ensures Locals(vs + [x], keys) == Locals(vs, keys)
  {
    forall i | 0 <= i < |keys|
      ensures Locals(vs + [x], keys)[i] == Locals(vs, keys)[i]
    {
      IndexOfPrefix(vs, [x], keys[i]);
    }
  }

  /** The keys of face `f` are among the keys of any longer face prefix. */
  lemma {:induction false} ConcatFace(kss: seq<seq<Vertex>>, n: nat, f: nat, k: Vertex)
    requires f < n <= |kss| && k in kss[f]
    ensures k in Concat(kss, n)
  {
    if f < n - 1 {
      ConcatFace(kss, n - 1, f, k);
    }
  }

  /** The vertex list only grows from face to face. */
  lemma {:induction false} WeldedPrefixGrows(kss: seq<seq<Vertex>>, a: nat, b: nat)
    requires a <= b <= |kss|
    ensures |WeldedPrefix(kss, a)| <= |WeldedPrefix(kss, b)|
    ensures WeldedPrefix(kss, b)[..|WeldedPrefix(kss, a)|] == WeldedPrefix(kss, a)
  {
    if a < b {
      WeldedPrefixGrows(kss, a, b - 1);
      DedupPrefix(Concat(kss, b - 1), kss[b - 1]);
    }
  }

  /** Key `i` of face `f` is recorded under the position of that key in the
      final vertex list. */
  lemma KeyIndex(kss: seq<seq<Vertex>>, f: nat, i: nat)
    requires f < |kss| && i < |kss[f]|
    ensures var vs := WeldedPrefix(kss, |kss|);
            var k := kss[f][i];
            FaceLocals(kss, f)[i] == IndexOf(vs, k) && IndexOf(vs, k) < |vs| && vs[IndexOf(vs, k)] == k
  {
    var k := kss[f][i];
    var pre := WeldedPrefix(kss, f + 1);
    var vs := WeldedPrefix(kss, |kss|);
    ConcatFace(kss, f + 1, f, k);
    DedupElements(Concat(kss, f + 1));
    WeldedPrefixGrows(kss, f + 1, |kss|);
    assert vs == pre + vs[|pre|..];
    IndexOfPrefix(pre, vs[|pre|..], k);
  }

  /** Every index face `f` emits is a position in the vertex list. */
  lemma FaceLocalsBound(kss: seq<seq<Vertex>>, f: nat)
    requires f < |kss|
    ensures forall x :: x in FaceLocals(kss, f) ==> x < |WeldedPrefix(kss, f + 1)|
  {
    DedupElements(Concat(kss, f + 1));
    forall x | x in FaceLocals(kss, f) ensures x < |WeldedPrefix(kss, f + 1)| {
      var i :| 0 <= i < |kss[f]| && FaceLocals(kss, f)[i] == x;
      ConcatFace(kss, f + 1, f, kss[f][i]);
    }
  }

  /** Every index a face emits is a position in the final vertex list. */
  lemma TrianglesBound(kss: seq<seq<Vertex>>, f: nat)
    requires f < |kss|
    ensures forall x :: x in Triangulate(FaceLocals(kss, f)) ==> x < |WeldedPrefix(kss, |kss|)|
  {
    FaceLocalsBound(kss, f);
    WeldedPrefixGrows(kss, f + 1, |kss|);
  }

  /** A slot's index list holds only indices some face emitted. */
  lemma {:induction false} EmittedBound(tris: seq<seq<nat>>, mats: seq<nat>, m: nat, n: nat, bound: nat)
    requires n <= |tris| == |mats|
    requires forall f, x :: 0 <= f < n && x in tris[f] ==> x < bound
    ensures forall x :: x in Emitted(tris, mats, m, n) ==> x < bound
  {
    if n > 0 {
      EmittedBound(tris, mats, m, n - 1, bound);
    }
  }

  lemma WholeTriangles(a: seq<nat>, b: seq<nat>)
    requires |a| % 3 == 0 && |b| % 3 == 0
    ensures |a + b| % 3 == 0
  {
  }

  /** A slot's index list holds whole triangles when every face emits whole triangles. */
  lemma {:induction false} EmittedTriangles(tris: seq<seq<nat>>, mats: seq<nat>, m: nat, n: nat)
    requires n <= |tris| == |mats|
    requires forall f :: 0 <= f < n ==> |tris[f]| % 3 == 0
    ensures |Emitted(tris, mats, m, n)| % 3 == 0
  {
    if n > 0 {
      EmittedTriangles(tris, mats, m, n - 1);
      WholeTriangles(Emitted(tris, mats, m, n - 1), if mats[n - 1] == m then tris[n - 1] else []);
    }
  }

  /** Slot `m` of the index lists holds the triangles of the faces on slot
      `m`, in face order. */
  lemma {:induction false} IndexListsSlots(tris: seq<seq<nat>>, mats: seq<nat>, slots: nat, n: nat, m: nat)
    requires n <= |tris| == |mats| && SlotsBelow(mats, slots) && m < slots
    ensures IndexLists(tris, mats, slots, n)[m] == Emitted(tris, mats, m, n)
  {
    if n > 0 {
      IndexListsSlots(tris, mats, slots, n - 1, m);
    }
  }

  // ---------------------------------------------------------------------
  // Mesh-level statements

  /** The triangles of every face of `mesh`. */
  function MeshTriangles(mesh: Mesh): seq<seq<nat>>
    requires MeshOk(mesh)
  {
    FaceTriangles(Corners(mesh), |mesh.faces|)
  }

  /** The welded vertex list of `mesh` after its first `n` faces. */
  function WeldedAfter(mesh: Mesh, n: nat): seq<Vertex>
    requires MeshOk(mesh) && n <= |mesh.faces|
  {
    WeldedPrefix(Corners(mesh), n)
  }

  /** The index lists of `mesh` after its first `n` faces. */
  function IndicesAfter(mesh: Mesh, n: nat): (lists: seq<seq<nat>>)
    requires MeshOk(mesh) && n <= |mesh.faces|
    ensures |lists| == SlotCount(mesh)
  {
    IndexLists(MeshTriangles(mesh), FaceSlots(mesh, |mesh.faces|), SlotCount(mesh), n)
  }

  /** The welded vertex list of a whole mesh. */
  function WeldedVertices(mesh: Mesh): seq<Vertex>
    requires MeshOk(mesh)
  {
    WeldedAfter(mesh, |mesh.faces|)
  }

  /** The index list of material slot `m` of a whole mesh. */
  function SlotIndices(mesh: Mesh, m: nat): seq<nat>
    requires MeshOk(mesh)
  {
    Emitted(MeshTriangles(mesh), FaceSlots(mesh, |mesh.faces|), m, |mesh.faces|)
  }

  /** Corner `i` of face `f` is recorded under the position of its key in
      the welded vertex list. */
  lemma CornerIndex(mesh: Mesh, f: nat, i: nat)
    requires MeshOk(mesh) && f < |mesh.faces| && i < |mesh.faces[f].vertices|
    ensures var vs := WeldedVertices(mesh);
            var k := CornerKey(mesh, mesh.faces[f], i);
            FaceLocals(Corners(mesh), f)[i] == IndexOf(vs, k) && IndexOf(vs, k) < |vs| && vs[IndexOf(vs, k)] == k
  {
    KeyIndex(Corners(mesh), f, i);
  }

  /** Dedup correctness: two corners of the mesh get the same local index
      exactly when their welding keys are equal. */
  lemma WeldIdentity(mesh: Mesh, f1: nat, i1: nat, f2: nat, i2: nat)
    requires MeshOk(mesh) && f1 < |mesh.faces| && f2 < |mesh.faces|
    requires i1 < |mesh.faces[f1].vertices| && i2 < |mesh.faces[f2].vertices|
    ensures FaceLocals(Corners(mesh), f1)[i1] == FaceLocals(Corners(mesh), f2)[i2] <==>
            CornerKey(mesh, mesh.faces[f1], i1) == CornerKey(mesh, mesh.faces[f2], i2)
  {
    CornerIndex(mesh, f1, i1);
    CornerIndex(mesh, f2, i2);
  }

  // ---------------------------------------------------------------------
  // The welder itself

  /** Interning a key already welded: the list stays, the corner reuses the
      vertex's index. */
  lemma InternSeen(seen: seq<Vertex>, done: seq<Vertex>, vertices: seq<Vertex>, dict: map<Vertex, nat>,
                   faceIndices: seq<nat>, mv: Vertex)
    requires vertices == Dedup(seen) && DictIndexes(dict, vertices)
    requires faceIndices == Locals(vertices, done)
    requires mv in dict
    ensures vertices == Dedup(seen + [mv])
    ensures faceIndices + [dict[mv]] == Locals(vertices, done + [mv])
  {
    DedupSnoc(seen, mv);
    DedupNoDup(seen);
    IndexOfDistinct(vertices, dict[mv]);
  }

  /** A new key stored under the old size indexes the extended list. */
  lemma DictFresh(dict: map<Vertex, nat>, vs: seq<Vertex>, mv: Vertex)
    requires DictIndexes(dict, vs) && mv !in dict
    ensures DictIndexes(dict[mv := |dict|], vs + [mv])
  {
    var dict' := dict[mv := |dict|];
    var vs' := vs + [mv];
    forall k | k in dict' ensures dict'[k] < |vs'| && vs'[dict'[k]] == k {
      if k != mv {
        assert k in dict;
      }
    }
    forall i | 0 <= i < |vs'| ensures vs'[i] in dict' {
      if i < |vs| {
        assert vs'[i] == vs[i];
      }
    }
    assert |dict'| == |dict| + 1;
  }

  /** Interning a new key: it goes last under the old size, and every index
      collected so far stays put. */
  lemma InternFresh(seen: seq<Vertex>, done: seq<Vertex>, vertices: seq<Vertex>, dict: map<Vertex, nat>,
                    faceIndices: seq<nat>, mv: Vertex)
    requires vertices == Dedup(seen) && DictIndexes(dict, vertices)
    requires faceIndices == Locals(vertices, done)
    requires forall k :: k in done ==> k in seen
    requires mv !in dict
    ensures vertices + [mv] == Dedup(seen + [mv])
    ensures DictIndexes(dict[mv := |dict|], vertices + [mv])
    ensures faceIndices + [|dict|] == Locals(vertices + [mv], done + [mv])
  {
    assert mv !in vertices;
    DictFresh(dict, vertices, mv);
    DedupSnoc(seen, mv);
    DedupElements(seen);
    LocalsPrefix(vertices, mv, done);
    assert IndexOf(vertices + [mv], mv) == |vertices|;
  }

  /** Loop invariant of the corner loop of face `f`: after `i` corners the
      vertex list is the welded list of every corner seen so far, and the
      face's local indices are the positions of its first `i` keys. */
  ghost predicate CornerInv(mesh: Mesh, f: nat, i: nat, vertices: seq<Vertex>, dict: map<Vertex, nat>,
                            faceIndices: seq<nat>)
    requires MeshOk(mesh) && f < |mesh.faces| && i <= |mesh.faces[f].vertices|
  {
    var done := CornerKeys(mesh, mesh.faces[f], i);
    vertices == Dedup(Concat(Corners(mesh), f) + done) &&
    DictIndexes(dict, vertices) &&
    faceIndices == Locals(vertices, done)
  }

  /** Interning corner `i` of face `f`, whether its key is new or already
      welded, completes the corner-loop step. */
  lemma CornerStep(mesh: Mesh, f: nat, i: nat, vertices: seq<Vertex>, dict: map<Vertex, nat>,
                   faceIndices: seq<nat>, mv: Vertex)
    requires MeshOk(mesh) && f < |mesh.faces| && i < |mesh.faces[f].vertices|
    requires CornerInv(mesh, f, i, vertices, dict, faceIndices)
    requires mv == CornerKey(mesh, mesh.faces[f], i)
    ensures mv in dict ==> CornerInv(mesh, f, i + 1, vertices, dict, faceIndices + [dict[mv]])
    ensures mv !in dict ==>
              CornerInv(mesh, f, i + 1, vertices + [mv], dict[mv := |dict|], faceIndices + [|dict|])
  {
    var face := mesh.faces[f];
    var done := CornerKeys(mesh, face, i);
    var before := Concat(Corners(mesh), f);
    var seen := before + done;
    assert CornerKeys(mesh, face, i + 1) == done + [mv];
    assert seen + [mv] == before + (done + [mv]);
    if mv in dict {
      InternSeen(seen, done, vertices, dict, faceIndices, mv);
    } else {
      InternFresh(seen, done, vertices, dict, faceIndices, mv);
    }
  }

  /** The corner loop starts from the vertex list of the earlier faces. */
  lemma CornersStart(mesh: Mesh, f: nat, vertices: seq<Vertex>, dict: map<Vertex, nat>)
    requires MeshOk(mesh) && f < |mesh.faces|
    requires vertices == WeldedAfter(mesh, f) && DictIndexes(dict, vertices)
    ensures CornerInv(mesh, f, 0, vertices, dict, [])
  {
    assert Concat(Corners(mesh), f) + CornerKeys(mesh, mesh.faces[f], 0) == Concat(Corners(mesh), f);
  }

  /** The corner loop ends with the whole face interned. */
  lemma CornersDone(mesh: Mesh, f: nat, vertices: seq<Vertex>, dict: map<Vertex, nat>, faceIndices: seq<nat>)
    requires MeshOk(mesh) && f < |mesh.faces|
    requires CornerInv(mesh, f, |mesh.faces[f].vertices|, vertices, dict, faceIndices)
    ensures vertices == WeldedAfter(mesh, f + 1) && DictIndexes(dict, vertices)
    ensures faceIndices == FaceLocals(Corners(mesh), f)
  {
  }

  /** The corner loop of `export_tessfaces` for face `f`: each corner's key
      is interned through `appendUnique`, new keys are appended to the vertex
      list, and the face's local indices are collected in winding order. */
  method InternCorners(mesh: Mesh, f: nat, vertices: seq<Vertex>, vertexDict: map<Vertex, nat>)
    returns (vertices': seq<Vertex>, vertexDict': map<Vertex, nat>, faceIndices: seq<nat>)
    requires MeshOk(mesh) && f < |mesh.faces|
    requires vertices == WeldedAfter(mesh, f) && DictIndexes(vertexDict, vertices)
    ensures vertices' == WeldedAfter(mesh, f + 1) && DictIndexes(vertexDict', vertices')
    ensures faceIndices == FaceLocals(Corners(mesh), f)
  {
    var face := mesh.faces[f];
    vertices', vertexDict', faceIndices := vertices, vertexDict, [];
    CornersStart(mesh, f, vertices, vertexDict);
    for i := 0 to |face.vertices|
      invariant CornerInv(mesh, f, i, vertices', vertexDict', faceIndices)
    {
      var vertexIndex := face.vertices[i];
      var normal := if face.smooth then mesh.vertices[vertexIndex].normal else face.normal;
      var uvVertex := if mesh.hasUV then Some(face.uvs[i]) else None;
      var mv := Vertex(vertexIndex, normal, uvVertex);
      CornerStep(mesh, f, i, vertices', vertexDict', faceIndices, mv);
      var (index, added, dict') := AppendUnique(vertexDict', mv);
      vertexDict' := dict';
      faceIndices := faceIndices + [index];
      if added {
        vertices' := vertices' + [mv];
      }
    }
    CornersDone(mesh, f, vertices', vertexDict', faceIndices);
  }

  /** Emitting the triangles of face `f`, by the three branches of the
      source, extends the index lists by that face. */
  lemma FaceStep(tris: seq<seq<nat>>, mats: seq<nat>, slots: nat, f: nat,
                 faceIndices: seq<nat>, indices: seq<seq<nat>>)
    requires f < |tris| == |mats| && SlotsBelow(mats, slots)
    requires tris[f] == Triangulate(faceIndices) && indices == IndexLists(tris, mats, slots, f)
    ensures var mi := mats[f];
            |faceIndices| == 3 ==> indices[mi := indices[mi] + faceIndices] == IndexLists(tris, mats, slots, f + 1)
    ensures var mi := mats[f];
            |faceIndices| == 4 ==>
              indices[mi := indices[mi] + (faceIndices[..3] + [faceIndices[2], faceIndices[3], faceIndices[0]])]
              == IndexLists(tris, mats, slots, f + 1)
    ensures |faceIndices| != 3 && |faceIndices| != 4 ==> indices == IndexLists(tris, mats, slots, f + 1)
  {
    var mi := mats[f];
    if |faceIndices| != 3 && |faceIndices| != 4 {
      assert indices[mi] + [] == indices[mi];
    }
  }

  /** What the face loop leaves behind once every face is done. */
  lemma WeldedShape(mesh: Mesh, vertices: seq<Vertex>, indices: seq<seq<nat>>)
    requires MeshOk(mesh)
    requires vertices == WeldedAfter(mesh, |mesh.faces|) && indices == IndicesAfter(mesh, |mesh.faces|)
    ensures vertices == WeldedVertices(mesh) && NoDup(vertices)
    ensures |indices| == SlotCount(mesh)
    ensures forall m :: 0 <= m < |indices| ==> indices[m] == SlotIndices(mesh, m)
    ensures forall m :: 0 <= m < |indices| ==>
              |indices[m]| % 3 == 0 && forall x :: x in indices[m] ==> x < |vertices|
  {
    var kss := Corners(mesh);
    var tris := MeshTriangles(mesh);
    var mats := FaceSlots(mesh, |mesh.faces|);
    DedupNoDup(Concat(kss, |kss|));
    forall f | 0 <= f < |tris|
      ensures |tris[f]| % 3 == 0 && forall x :: x in tris[f] ==> x < |vertices|
    {
      TrianglesBound(kss, f);
    }
    forall m | 0 <= m < |indices|
      ensures indices[m] == SlotIndices(mesh, m)
      ensures |indices[m]| % 3 == 0 && forall x :: x in indices[m] ==> x < |vertices|
    {
      IndexListsSlots(tris, mats, SlotCount(mesh), |tris|, m);
      EmittedTriangles(tris, mats, m, |tris|);
      EmittedBound(tris, mats, m, |tris|, |vertices|);
    }
  }

  /** One pass of the face loop of `export_tessfaces`: intern the corners of
      face `f`, then append its triangles to the index list of its material
      slot, splicing a quad into two triangles. */
  method WeldFace(mesh: Mesh, f: nat, vertices: seq<Vertex>, vertexDict: map<Vertex, nat>, indices: seq<seq<nat>>)
    returns (vertices': seq<Vertex>, vertexDict': map<Vertex, nat>, indices': seq<seq<nat>>)
    requires MeshOk(mesh) && f < |mesh.faces|
    requires vertices == WeldedAfter(mesh, f) && DictIndexes(vertexDict, vertices)
    requires indices == IndicesAfter(mesh, f)
    ensures vertices' == WeldedAfter(mesh, f + 1) && DictIndexes(vertexDict', vertices')
    ensures indices' == IndicesAfter(mesh, f + 1)
  {
    var face := mesh.faces[f];
    var faceIndices;
    vertices', vertexDict', faceIndices := InternCorners(mesh, f, vertices, vertexDict);
    FaceStep(MeshTriangles(mesh), FaceSlots(mesh, |mesh.faces|), SlotCount(mesh), f, faceIndices, indices);
    indices' := indices;
    if |faceIndices| == 3 {
      indices' := indices'[face.materialIndex := indices'[face.materialIndex] + faceIndices];
    } else if |faceIndices| == 4 {
      var face2 := [faceIndices[2], faceIndices[3], faceIndices[0]];
      faceIndices := faceIndices[..3] + face2;
      indices' := indices'[face.materialIndex := indices'[face.materialIndex] + faceIndices];
    } else {
      // The source logs through an undefined name here and would raise;
      // the model emits no indices for the face and carries on.
    }
  }

  /** `export_tessfaces`: `None` for a mesh without faces; otherwise the
      vertex list in first-seen order without duplicates, and per material
      slot the triangulated local indices of its faces in face order. */
  method ExportTessfaces(mesh: Mesh) returns (r: Option<Welded>)
    requires MeshOk(mesh)
    ensures r.None? <==> |mesh.faces| == 0
    ensures r.Some? ==> r.value.vertices == WeldedVertices(mesh)
    ensures r.Some? ==> NoDup(r.value.vertices)
    ensures r.Some? ==> |r.value.indices| == SlotCount(mesh)
    ensures r.Some? ==> forall m :: 0 <= m < |r.value.indices| ==> r.value.indices[m] == SlotIndices(mesh, m)
    ensures r.Some? ==> forall m :: 0 <= m < |r.value.indices| ==>
              |r.value.indices[m]| % 3 == 0 &&
              forall x :: x in r.value.indices[m] ==> x < |r.value.vertices|
  {
    if |mesh.faces| == 0 {
      return None;
    }
    var indices := EmptyLists(SlotCount(mesh));
    var vertices: seq<Vertex> := [];
    var vertexDict: map<Vertex, nat> := map[];
    var f := 0;
    while f < |mesh.faces|
      invariant f <= |mesh.faces|
      invariant vertices == WeldedAfter(mesh, f) && DictIndexes(vertexDict, vertices)
      invariant indices == IndicesAfter(mesh, f)
    {
      vertices, vertexDict, indices := WeldFace(mesh, f, vertices, vertexDict, indices);
      f := f + 1;
    }
    WeldedShape(mesh, vertices, indices);
    r := Some(Welded(vertices, indices));
  }
}
