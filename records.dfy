/** The records `AssetExporter` keeps: material records (`_material`), mesh
    data blocks (`_asset["data"]`) and submesh records (`_asset["mesh"]`),
    the registries that hold them, and the element tree `saveXML` builds
    from them. Python dicts keep insertion order, so each dict is modelled
    as a map together with the sequence of its keys in insertion order. */
module Records {
  import opened Types
  import opened Welder
  import opened Content

  /** The Xflow compute expression attached to every named material. */
  const BLENDER2XML_MATERIAL: string :=
    "(diffuseColor, specularColor, shininess, ambientIntensity) = xflow.blenderMaterial(diffuse_color, diffuse_intensity, specular_color, specular_intensity, specular_hardness)"

  const PHONG: string := "urn:xml3d:shader:phong"

  const DEFAULT_MATERIAL: string := "defaultMaterial"

  /** Smallest diffuse colour factor at which a texture slot still counts. */
  const MIN_DIFFUSE_FACTOR: real := 0.0001

  /** A material record `{"content": {"data": content}, "script", ["compute"]}`. */
  datatype Shader = Shader(content: seq<Entry>, script: string, compute: Option<string>)

  /** A submesh record `{"name", "includes", "data", "shader"}`. */
  datatype Submesh = Submesh(name: string, includes: string, data: seq<Entry>, shader: string)

  /** The material registry: records by name, names in registration order. */
  datatype Registry = Registry(shaders: map<string, Shader>, order: seq<string>)

  /** A dict in insertion order: `order` lists each key of `m` exactly once. */
  ghost predicate Ordered<V>(m: map<string, V>, order: seq<string>)
  {
    NoDup(order) &&
    (forall k :: k in m ==> k in order) &&
    (forall i :: 0 <= i < |order| ==> order[i] in m)
  }

  /** Storing under a new key appends it to the order; overwriting an
      existing key keeps its position. */
  lemma OrderedPut<V>(m: map<string, V>, order: seq<string>, k: string, v: V)
    requires Ordered(m, order)
    ensures Ordered(m[k := v], order + (if k in m then [] else [k]))
  {
    var order' := order + (if k in m then [] else [k]);
    forall x | x in m[k := v] ensures x in order' {
      if x != k {
        assert x in order;
        var i :| 0 <= i < |order| && order[i] == x;
        assert order'[i] == x;
      } else if k in m {
        assert k in order;
      } else {
        assert order'[|order|] == k;
      }
    }
  }

  // ---------------------------------------------------------------------
  // Material records

  /** The record `add_default_material` stores: three textual parameters. */
  function DefaultShader(): (s: Shader)
    ensures |s.content| == 3 && s.compute.None? && s.script == PHONG
    ensures forall i :: 0 <= i < |s.content| ==> WellTyped(s.content[i]) && s.content[i].kind != Texture
  {
    Shader([Entry(Float3, "diffuseColor", Text("0.8 0.8 0.8")),
            Entry(Float3, "specularColor", Text("1.0 1.0 0.1")),
            Entry(Float, "ambientIntensity", Text("0.5"))],
           PHONG, None)
  }

  /** The six fixed parameters of a named material. The `diffuse_color`
      parameter is filled from the specular colour, as the source does. */
  function MaterialParams(m: Material): seq<Entry>
  {
    [Entry(Float, "diffuse_intensity", Scalar(m.diffuseIntensity)),
     Entry(Float3, "diffuse_color", Tuples([Vec3Tuple(m.specularColor)])),
     Entry(Float, "specular_intensity", Scalar(m.specularIntensity)),
     Entry(Float3, "specular_color", Tuples([Vec3Tuple(m.specularColor)])),
     Entry(Float, "specular_hardness", Whole(m.specularHardness)),
     Entry(Float, "ambient", Scalar(m.ambient))]
  }

  /** The texture filter: the slot is enabled and present, maps the diffuse
      colour with a factor of at least 0.0001, uses UV coordinates, is an
      image texture, and its image comes from a file or a video. */
  predicate Qualifies(e: SlotEntry)
  {
    e.enabled && e.slot.Some? &&
    e.slot.value.useMapColorDiffuse && !(e.slot.value.diffuseColorFactor < MIN_DIFFUSE_FACTOR) &&
    e.slot.value.textureCoords == "UV" &&
    e.slot.value.textureType == "IMAGE" &&
    (e.slot.value.imageSource == "FILE" || e.slot.value.imageSource == "VIDEO")
  }

  function TextureEntry(src: string): Entry
  {
    Entry(Texture, "diffuseTexture", Text(src))
  }

  /** The `diffuseTexture` entries the qualifying slots contribute, in slot order. */
  function TextureEntries(slots: seq<SlotEntry>): seq<Entry>
  {
    if |slots| == 0 then []
    else
      var last := slots[|slots| - 1];
      TextureEntries(slots[..|slots| - 1]) + (if Qualifies(last) then [TextureEntry(last.slot.value.imageSrc)] else [])
  }

  /** The record `add_material` stores for `m`. */
  function MaterialShader(m: Material): Shader
  {
    Shader(MaterialParams(m) + TextureEntries(m.textureSlots), PHONG, Some(BLENDER2XML_MATERIAL))
  }

  ghost predicate AllWellTyped(es: seq<Entry>)
  {
    forall i :: 0 <= i < |es| ==> WellTyped(es[i])
  }

  /** Every entry of a record can be written. */
  ghost predicate ShaderOk(s: Shader)
  {
    AllWellTyped(s.content)
  }

  /** The quirk of `add_material`: the material's own diffuse colour never
      reaches the record; its `diffuse_color` parameter repeats the specular one. */
  lemma DiffuseColorIgnored(m: Material, c: Vec3)
    ensures MaterialShader(m.(diffuseColor := c)) == MaterialShader(m)
    ensures MaterialParams(m)[1].value == MaterialParams(m)[3].value == Tuples([Vec3Tuple(m.specularColor)])
  {
  }

  /** A slot contributes a texture exactly when it passes the filter: the
      texture entries are the qualifying slots' image URIs and nothing else. */
  lemma {:induction false} TextureEntriesExact(slots: seq<SlotEntry>, src: string)
    ensures TextureEntry(src) in TextureEntries(slots) <==>
            exists i :: 0 <= i < |slots| && Qualifies(slots[i]) && slots[i].slot.value.imageSrc == src
  {
    if |slots| > 0 {
      var init := slots[..|slots| - 1];
      TextureEntriesExact(init, src);
      if exists i :: 0 <= i < |init| && Qualifies(init[i]) && init[i].slot.value.imageSrc == src {
        var i :| 0 <= i < |init| && Qualifies(init[i]) && init[i].slot.value.imageSrc == src;
        assert slots[i] == init[i];
      }
      if exists i :: 0 <= i < |slots| && Qualifies(slots[i]) && slots[i].slot.value.imageSrc == src {
        var i :| 0 <= i < |slots| && Qualifies(slots[i]) && slots[i].slot.value.imageSrc == src;
        if i < |init| {
          assert init[i] == slots[i];
        }
      }
    }
  }

  /** The slots that pass the filter, in slot order. */
  function QualifyingSlots(slots: seq<SlotEntry>): (q: seq<SlotEntry>)
    ensures |q| <= |slots|
    ensures forall e :: e in q ==> e in slots
    ensures forall k :: 0 <= k < |q| ==> Qualifies(q[k])
  {
    if |slots| == 0 then []
    else (if Qualifies(slots[0]) then [slots[0]] else []) + QualifyingSlots(slots[1..])
  }

  lemma {:induction false} QualifyingSnoc(s: seq<SlotEntry>, x: SlotEntry)
    ensures QualifyingSlots(s + [x]) == QualifyingSlots(s) + (if Qualifies(x) then [x] else [])
  {
    if |s| == 0 {
      assert s + [x] == [x];
      assert [x][1..] == [];
    } else {
      assert (s + [x])[0] == s[0];
      assert (s + [x])[1..] == s[1..] + [x];
      QualifyingSnoc(s[1..], x);
    }
  }

  /** The texture entries are, one for one and in slot order, the image URIs
      of the qualifying slots: exactly one entry per qualifying slot and none
      for any other. Every entry is a `texture` named `diffuseTexture`. */
  lemma {:induction false} TextureEntriesShape(slots: seq<SlotEntry>)
    ensures |TextureEntries(slots)| == |QualifyingSlots(slots)| <= |slots|
    ensures forall k :: 0 <= k < |QualifyingSlots(slots)| ==>
              TextureEntries(slots)[k] == TextureEntry(QualifyingSlots(slots)[k].slot.value.imageSrc)
    ensures forall e :: e in TextureEntries(slots) ==>
              e.kind == Texture && e.name == "diffuseTexture" && e.value.Text? && WellTyped(e)
  {
    if |slots| > 0 {
      var init, last := slots[..|slots| - 1], slots[|slots| - 1];
      assert slots == init + [last];
      TextureEntriesShape(init);
      QualifyingSnoc(init, last);
      var q, t := QualifyingSlots(slots), TextureEntries(slots);
      forall k | 0 <= k < |q|
        ensures t[k] == TextureEntry(q[k].slot.value.imageSrc)
      {
        if k < |QualifyingSlots(init)| {
          assert q[k] == QualifyingSlots(init)[k];
          assert t[k] == TextureEntries(init)[k];
        }
      }
    }
  }

  /** A named record holds the six fixed parameters, then only texture
      entries; all of them can be written. */
  lemma MaterialShaderShape(m: Material)
    ensures var s := MaterialShader(m);
            ShaderOk(s) && s.script == PHONG && s.compute == Some(BLENDER2XML_MATERIAL) &&
            |s.content| >= 6 && s.content[..6] == MaterialParams(m) &&
            forall i :: 6 <= i < |s.content| ==> s.content[i].kind == Texture && s.content[i].name == "diffuseTexture"
  {
    TextureEntriesShape(m.textureSlots);
    var s := MaterialShader(m);
    forall i | 0 <= i < |s.content|
      ensures WellTyped(s.content[i]) &&
              (6 <= i ==> s.content[i].kind == Texture && s.content[i].name == "diffuseTexture")
    {
      if 6 <= i {
        assert s.content[i] in TextureEntries(m.textureSlots);
      }
    }
  }

  // ---------------------------------------------------------------------
  // The material registry

  /** Names in registration order, each record writable. */
  ghost predicate RegistryOk(r: Registry)
  {
    Ordered(r.shaders, r.order) && forall k :: k in r.shaders ==> ShaderOk(r.shaders[k])
  }

  /** Registering `s` under `name` unless the name is already taken. */
  function Enroll(r: Registry, name: string, s: Shader): Registry
  {
    if name in r.shaders then r else Registry(r.shaders[name := s], r.order + [name])
  }

  /** `r2` keeps every record of `r`, and `r`'s names open its order. */
  ghost predicate Extends(r: Registry, r2: Registry)
  {
    (forall k :: k in r.shaders ==> k in r2.shaders && r2.shaders[k] == r.shaders[k]) &&
    |r.order| <= |r2.order| && r2.order[..|r.order|] == r.order
  }

  lemma ExtendsTrans(r1: Registry, r2: Registry, r3: Registry)
    requires Extends(r1, r2) && Extends(r2, r3)
    ensures Extends(r1, r3)
  {
    assert r3.order[..|r1.order|] == r3.order[..|r2.order|][..|r1.order|];
  }

  /** Registration keeps the registry consistent, registers the name, and
      keeps every earlier record and its place. */
  lemma EnrollOk(r: Registry, name: string, s: Shader)
    requires RegistryOk(r) && ShaderOk(s)
    ensures RegistryOk(Enroll(r, name, s))
    ensures name in Enroll(r, name, s).shaders
    ensures Extends(r, Enroll(r, name, s))
  {
    OrderedPut(r.shaders, r.order, name, s);
    if name !in r.shaders {
      assert (r.order + [name])[..|r.order|] == r.order;
    }
  }

  /** Registering a name a second time changes nothing, whatever the record. */
  lemma EnrollIdempotent(r: Registry, name: string, s: Shader, s2: Shader)
    ensures Enroll(Enroll(r, name, s), name, s2) == Enroll(r, name, s)
    ensures Enroll(r, name, s).shaders[name] == (if name in r.shaders then r.shaders[name] else s)
  {
  }

  // ---------------------------------------------------------------------
  // Mesh data blocks and submeshes

  predicate IndicesIn(mesh: Mesh, vs: seq<Vertex>)
  {
    forall i :: 0 <= i < |vs| ==> vs[i].index < |mesh.vertices|
  }

  /** `tuple(mesh.vertices[v.index].co)` for each welded vertex. */
  function Positions(mesh: Mesh, vs: seq<Vertex>): (ps: seq<seq<real>>)
    requires IndicesIn(mesh, vs)
    ensures |ps| == |vs|
    ensures forall i :: 0 <= i < |vs| ==> ps[i] == Vec3Tuple(mesh.vertices[vs[i].index].co)
  {
    if |vs| == 0 then []
    else Positions(mesh, vs[..|vs| - 1]) + [Vec3Tuple(mesh.vertices[vs[|vs| - 1].index].co)]
  }

  /** `tuple(v.normal)` for each welded vertex. */
  function Normals(vs: seq<Vertex>): (ns: seq<seq<real>>)
    ensures |ns| == |vs|
    ensures forall i :: 0 <= i < |vs| ==> ns[i] == Vec3Tuple(vs[i].normal)
  {
    if |vs| == 0 then [] else Normals(vs[..|vs| - 1]) + [Vec3Tuple(vs[|vs| - 1].normal)]
  }

  predicate AllTextured(vs: seq<Vertex>)
  {
    forall i :: 0 <= i < |vs| ==> vs[i].texcoord.Some?
  }

  /** `tuple(v.texcoord)` for each welded vertex. */
  function Texcoords(vs: seq<Vertex>): (ts: seq<seq<real>>)
    requires AllTextured(vs)
    ensures |ts| == |vs|
    ensures forall i :: 0 <= i < |vs| ==> ts[i] == UVTuple(vs[i].texcoord.value)
  {
    if |vs| == 0 then [] else Texcoords(vs[..|vs| - 1]) + [UVTuple(vs[|vs| - 1].texcoord.value)]
  }

  /** The arrays of a welded vertex list: positions and normals, and texture
      coordinates when the first vertex has one. */
  function ArraysOf(mesh: Mesh, vs: seq<Vertex>): seq<Entry>
    requires |vs| > 0 && IndicesIn(mesh, vs)
    requires vs[0].texcoord.Some? ==> AllTextured(vs)
  {
    [Entry(Float3, "position", Tuples(Positions(mesh, vs))), Entry(Float3, "normal", Tuples(Normals(vs)))] +
    (if vs[0].texcoord.Some? then [Entry(Float2, "texcoord", Tuples(Texcoords(vs)))] else [])
  }

  /** Whether `addMeshData` stores anything for `mesh`: it has faces and
      they weld to at least one vertex. */
  predicate Exports(mesh: Mesh)
    requires MeshOk(mesh)
  {
    |mesh.faces| > 0 && |WeldedVertices(mesh)| > 0
  }

  /** The data block `addMeshData` stores for `mesh`. */
  function MeshArrays(mesh: Mesh): seq<Entry>
    requires MeshOk(mesh) && Exports(mesh)
  {
    WeldedKeys(mesh);
    ArraysOf(mesh, WeldedVertices(mesh))
  }

  /** A data block: aligned position and normal arrays of float triples, and
      optionally an aligned texcoord array of float pairs. */
  ghost predicate DataOk(c: seq<Entry>)
  {
    (|c| == 2 || |c| == 3) &&
    c[0] == Entry(Float3, "position", c[0].value) && c[0].value.Tuples? &&
    c[1] == Entry(Float3, "normal", c[1].value) && c[1].value.Tuples? &&
    |c[1].value.ts| == |c[0].value.ts| &&
    (forall i :: 0 <= i < |c[0].value.ts| ==> |c[0].value.ts[i]| == 3 && |c[1].value.ts[i]| == 3) &&
    (|c| == 3 ==>
       c[2] == Entry(Float2, "texcoord", c[2].value) && c[2].value.Tuples? &&
       |c[2].value.ts| == |c[0].value.ts| &&
       forall i :: 0 <= i < |c[2].value.ts| ==> |c[2].value.ts[i]| == 2)
  }

  /** Data blocks by mesh name, in insertion order, each well formed. */
  ghost predicate DataStoreOk(data: map<string, seq<Entry>>, order: seq<string>)
  {
    Ordered(data, order) && forall k :: k in data ==> DataOk(data[k])
  }

  /** `_asset["data"][name] = {"content": content}` keeps the store consistent. */
  lemma StoreOk(data: map<string, seq<Entry>>, order: seq<string>, name: string, content: seq<Entry>)
    requires DataStoreOk(data, order) && DataOk(content)
    ensures DataStoreOk(data[name := content], order + (if name in data then [] else [name]))
  {
    OrderedPut(data, order, name, content);
  }

  /** The material in slot `m` of `mesh`; the single slot of a mesh without
      materials, and an empty material slot, hold none. */
  function SlotMaterial(mesh: Mesh, m: nat): Option<Material>
    requires m < SlotCount(mesh)
  {
    if |mesh.materials| == 0 then None else mesh.materials[m]
  }

  function SlotName(mesh: Mesh, m: nat): string
    requires m < SlotCount(mesh)
  {
    match SlotMaterial(mesh, m)
    case Some(mat) => mat.name
    case None => DEFAULT_MATERIAL
  }

  /** The record registered for slot `m`. */
  function SlotRecord(mesh: Mesh, m: nat): Shader
    requires m < SlotCount(mesh)
  {
    match SlotMaterial(mesh, m)
    case Some(mat) => MaterialShader(mat)
    case None => DefaultShader()
  }

  /** The submesh record of slot `m` holding the index list `idx`. */
  function SubmeshOf(mesh: Mesh, m: nat, idx: seq<nat>): Submesh
    requires m < SlotCount(mesh)
  {
    Submesh(mesh.name + "_" + SlotName(mesh, m), mesh.name, [Entry(Int, "index", Ints(idx))], "#" + SlotName(mesh, m))
  }

  /** The submeshes of the first `n` slots: one per non-empty index list, in slot order. */
  function Submeshes(mesh: Mesh, n: nat): seq<Submesh>
    requires MeshOk(mesh) && n <= SlotCount(mesh)
  {
    if n == 0 then []
    else
      Submeshes(mesh, n - 1) +
      (if |SlotIndices(mesh, n - 1)| == 0 then [] else [SubmeshOf(mesh, n - 1, SlotIndices(mesh, n - 1))])
  }

  /** One more slot extends the submesh list by that slot's submesh, if any. */
  lemma SubmeshesNext(prefix: seq<Submesh>, mesh: Mesh, m: nat)
    requires MeshOk(mesh) && m < SlotCount(mesh)
    ensures |SlotIndices(mesh, m)| == 0 ==> prefix + Submeshes(mesh, m + 1) == prefix + Submeshes(mesh, m)
    ensures |SlotIndices(mesh, m)| > 0 ==>
              prefix + Submeshes(mesh, m + 1) == prefix + Submeshes(mesh, m) + [SubmeshOf(mesh, m, SlotIndices(mesh, m))]
  {
  }

  /** The registry after the materials of the first `n` used slots are registered. */
  function RegisterSlots(r: Registry, mesh: Mesh, n: nat): Registry
    requires MeshOk(mesh) && n <= SlotCount(mesh)
  {
    if n == 0 then r
    else
      var prev := RegisterSlots(r, mesh, n - 1);
      if |SlotIndices(mesh, n - 1)| == 0 then prev else Enroll(prev, SlotName(mesh, n - 1), SlotRecord(mesh, n - 1))
  }

  /** A submesh record: one non-empty `int` index list of whole triangles,
      a name joining the mesh name and the material name with `_`, and a
      shader reference `#` + material name. */
  ghost predicate SubmeshOk(s: Submesh)
  {
    |s.data| == 1 && s.data[0] == Entry(Int, "index", s.data[0].value) && s.data[0].value.Ints? &&
    |s.data[0].value.xs| > 0 && |s.data[0].value.xs| % 3 == 0 &&
    |s.shader| > 0 && s.shader[0] == '#' &&
    s.name == s.includes + "_" + s.shader[1..]
  }

  /** Every submesh is well formed, includes a stored data block and
      references a registered record. */
  ghost predicate MeshesOk(meshes: seq<Submesh>, data: map<string, seq<Entry>>, shaders: map<string, Shader>)
  {
    forall i :: 0 <= i < |meshes| ==>
      SubmeshOk(meshes[i]) && meshes[i].includes in data && meshes[i].shader[1..] in shaders
  }

  lemma MeshesWiden(meshes: seq<Submesh>, data: map<string, seq<Entry>>, shaders: map<string, Shader>,
                    data2: map<string, seq<Entry>>, shaders2: map<string, Shader>)
    requires MeshesOk(meshes, data, shaders)
    requires forall k :: k in data ==> k in data2
    requires forall k :: k in shaders ==> k in shaders2
    ensures MeshesOk(meshes, data2, shaders2)
  {
  }

  lemma MeshesAppend(meshes: seq<Submesh>, s: Submesh, data: map<string, seq<Entry>>, shaders: map<string, Shader>)
    requires MeshesOk(meshes, data, shaders)
    requires SubmeshOk(s) && s.includes in data && s.shader[1..] in shaders
    ensures MeshesOk(meshes + [s], data, shaders)
  {
  }

  /** The exporter's records are consistent with one another. */
  ghost predicate Consistent(data: map<string, seq<Entry>>, dataOrder: seq<string>, meshes: seq<Submesh>, r: Registry)
  {
    DataStoreOk(data, dataOrder) && RegistryOk(r) && MeshesOk(meshes, data, r.shaders)
  }

  /** The welded keys of the first `n` faces each come from some corner. */
  lemma {:induction false} ConcatMember(kss: seq<seq<Vertex>>, n: nat, k: Vertex) returns (f: nat, j: nat)
    requires n <= |kss| && k in Concat(kss, n)
    ensures f < n && j < |kss[f]| && kss[f][j] == k
  {
    if k in Concat(kss, n - 1) {
      f, j := ConcatMember(kss, n - 1, k);
    } else {
      f := n - 1;
      var i :| 0 <= i < |Concat(kss, n)| && Concat(kss, n)[i] == k;
      j := i - |Concat(kss, n - 1)|;
    }
  }

  /** The welded vertices reference mesh vertices, and carry a texture
      coordinate exactly when the mesh has a UV layer. */
  lemma WeldedKeys(mesh: Mesh)
    requires MeshOk(mesh)
    ensures IndicesIn(mesh, WeldedVertices(mesh))
    ensures forall i :: 0 <= i < |WeldedVertices(mesh)| ==>
              (WeldedVertices(mesh)[i].texcoord.Some? <==> mesh.hasUV)
  {
    var kss := Corners(mesh);
    var vs := WeldedVertices(mesh);
    DedupElements(Concat(kss, |kss|));
    forall i | 0 <= i < |vs|
      ensures vs[i].index < |mesh.vertices| && (vs[i].texcoord.Some? <==> mesh.hasUV)
    {
      var f, j := ConcatMember(kss, |kss|, vs[i]);
      assert vs[i] == CornerKey(mesh, mesh.faces[f], j);
    }
  }

  /** The arrays are aligned with the welded vertex list, index by index. */
  lemma ArraysOfAligned(mesh: Mesh, vs: seq<Vertex>)
    requires |vs| > 0 && IndicesIn(mesh, vs)
    requires vs[0].texcoord.Some? ==> AllTextured(vs)
    ensures var c := ArraysOf(mesh, vs);
            DataOk(c) && |c[0].value.ts| == |vs| &&
            (|c| == 3 <==> vs[0].texcoord.Some?) &&
            forall i :: 0 <= i < |vs| ==>
              c[0].value.ts[i] == Vec3Tuple(mesh.vertices[vs[i].index].co) &&
              c[1].value.ts[i] == Vec3Tuple(vs[i].normal) &&
              (|c| == 3 ==> c[2].value.ts[i] == UVTuple(vs[i].texcoord.value))
  {
  }

  /** `addMeshData`'s arrays: a well-formed data block, one position, normal
      and (exactly when the mesh has a UV layer) texture coordinate per
      welded vertex, the position taken from the referenced mesh vertex. */
  lemma ArraysAligned(mesh: Mesh)
    requires MeshOk(mesh) && Exports(mesh)
    ensures IndicesIn(mesh, WeldedVertices(mesh))
    ensures forall i :: 0 <= i < |WeldedVertices(mesh)| ==>
              (WeldedVertices(mesh)[i].texcoord.Some? <==> mesh.hasUV)
    ensures var c := MeshArrays(mesh); var vs := WeldedVertices(mesh);
            DataOk(c) && |c[0].value.ts| == |vs| &&
            (|c| == 3 <==> mesh.hasUV) &&
            forall i :: 0 <= i < |vs| ==>
              c[0].value.ts[i] == Vec3Tuple(mesh.vertices[vs[i].index].co) &&
              c[1].value.ts[i] == Vec3Tuple(vs[i].normal) &&
              (|c| == 3 ==> c[2].value.ts[i] == UVTuple(vs[i].texcoord.value))
  {
    WeldedKeys(mesh);
    ArraysOfAligned(mesh, WeldedVertices(mesh));
  }

  /** Slot `m`'s index list holds whole triangles of valid vertex positions. */
  lemma SlotIndicesShape(mesh: Mesh, m: nat)
    requires MeshOk(mesh) && m < SlotCount(mesh)
    ensures |SlotIndices(mesh, m)| % 3 == 0
    ensures forall x :: x in SlotIndices(mesh, m) ==> x < |WeldedVertices(mesh)|
  {
    var tris := MeshTriangles(mesh);
    var mats := FaceSlots(mesh, |mesh.faces|);
    var kss := Corners(mesh);
    forall f | 0 <= f < |tris|
      ensures |tris[f]| % 3 == 0 && forall x :: x in tris[f] ==> x < |WeldedVertices(mesh)|
    {
      TrianglesBound(kss, f);
    }
    EmittedTriangles(tris, mats, m, |tris|);
    EmittedBound(tris, mats, m, |tris|, |WeldedVertices(mesh)|);
  }

  /** The submesh of a used slot is well formed and points back at its mesh
      and at the slot's material by name. */
  lemma SubmeshFits(mesh: Mesh, m: nat)
    requires MeshOk(mesh) && m < SlotCount(mesh) && |SlotIndices(mesh, m)| > 0
    ensures var s := SubmeshOf(mesh, m, SlotIndices(mesh, m));
            SubmeshOk(s) && s.includes == mesh.name && s.shader[1..] == SlotName(mesh, m)
  {
    SlotIndicesShape(mesh, m);
    var s := SubmeshOf(mesh, m, SlotIndices(mesh, m));
    assert s.shader[1..] == SlotName(mesh, m);
  }

  /** A submesh of the mesh named `name` whose indices stay below `bound`. */
  ghost predicate SubmeshWithin(s: Submesh, name: string, bound: nat)
  {
    SubmeshOk(s) && s.includes == name &&
    forall x :: x in s.data[0].value.xs ==> 0 <= x < bound
  }

  /** Each submesh of a mesh holds a non-empty list of whole triangles whose
      indices all fall inside the mesh's arrays, and includes the mesh's
      data block. */
  lemma {:induction false} SubmeshesShape(mesh: Mesh, n: nat)
    requires MeshOk(mesh) && n <= SlotCount(mesh)
    ensures forall j :: 0 <= j < |Submeshes(mesh, n)| ==>
              SubmeshWithin(Submeshes(mesh, n)[j], mesh.name, |WeldedVertices(mesh)|)
  {
    if n > 0 {
      SubmeshesShape(mesh, n - 1);
      if |SlotIndices(mesh, n - 1)| > 0 {
        SubmeshFits(mesh, n - 1);
        SlotIndicesShape(mesh, n - 1);
      }
    }
  }

  lemma SlotRecordOk(mesh: Mesh, m: nat)
    requires m < SlotCount(mesh)
    ensures ShaderOk(SlotRecord(mesh, m))
  {
    match SlotMaterial(mesh, m)
    case Some(mat) => MaterialShaderShape(mat);
    case None =>
  }

  /** Registering the used slots keeps the registry consistent and every
      earlier record, and leaves each used slot's material registered. */
  lemma {:induction false} RegisterSlotsOk(r: Registry, mesh: Mesh, n: nat)
    requires MeshOk(mesh) && n <= SlotCount(mesh) && RegistryOk(r)
    ensures RegistryOk(RegisterSlots(r, mesh, n))
    ensures Extends(r, RegisterSlots(r, mesh, n))
    ensures forall m :: 0 <= m < n && |SlotIndices(mesh, m)| > 0 ==> SlotName(mesh, m) in RegisterSlots(r, mesh, n).shaders
  {
    if n == 0 {
      assert r.order[..|r.order|] == r.order;
    } else {
      RegisterSlotsOk(r, mesh, n - 1);
      if |SlotIndices(mesh, n - 1)| > 0 {
        SlotRecordOk(mesh, n - 1);
        EnrollStep(r, RegisterSlots(r, mesh, n - 1), SlotName(mesh, n - 1), SlotRecord(mesh, n - 1));
      }
    }
  }

  /** One registration on top of a registry that already extends `r`. */
  lemma EnrollStep(r: Registry, prev: Registry, name: string, s: Shader)
    requires RegistryOk(prev) && Extends(r, prev) && ShaderOk(s)
    ensures RegistryOk(Enroll(prev, name, s)) && Extends(r, Enroll(prev, name, s))
    ensures name in Enroll(prev, name, s).shaders
    ensures forall k :: k in prev.shaders ==> k in Enroll(prev, name, s).shaders
  {
    EnrollOk(prev, name, s);
    ExtendsTrans(r, prev, Enroll(prev, name, s));
  }

  // ---------------------------------------------------------------------
  // The element tree `saveXML` builds

  /** Entries the writer can render without stats: well typed, no textures. */
  ghost predicate Plain(es: seq<Entry>)
  {
    forall i :: 0 <= i < |es| ==> WellTyped(es[i]) && es[i].kind != Texture
  }

  /** Every name in `order` has a stored block that can be written. */
  ghost predicate Stored(data: map<string, seq<Entry>>, order: seq<string>)
  {
    forall i :: 0 <= i < |order| ==> order[i] in data && Plain(data[order[i]])
  }

  /** Every registered name has a record that can be written. */
  ghost predicate Enrolled(r: Registry)
  {
    forall i :: 0 <= i < |r.order| ==> r.order[i] in r.shaders && ShaderOk(r.shaders[r.order[i]])
  }

  ghost predicate MeshesPlain(meshes: seq<Submesh>)
  {
    forall i :: 0 <= i < |meshes| ==> Plain(meshes[i].data)
  }

  /** Consistent records can all be written. */
  lemma ConsistentWritable(data: map<string, seq<Entry>>, dataOrder: seq<string>, meshes: seq<Submesh>, r: Registry)
    requires Consistent(data, dataOrder, meshes, r)
    ensures Stored(data, dataOrder) && Enrolled(r) && MeshesPlain(meshes)
  {
    forall i | 0 <= i < |meshes| ensures Plain(meshes[i].data) {
      assert SubmeshOk(meshes[i]);
    }
  }

  /** The elements of the first `n` entries, in order. */
  function Rendered(fmt: Format, es: seq<Entry>, n: nat): (ns: seq<Node>)
    requires n <= |es| && AllWellTyped(es)
    ensures |ns| == n
    ensures forall i :: 0 <= i < n ==> ns[i] == RenderEntry(fmt, es[i])
  {
    if n == 0 then [] else Rendered(fmt, es, n - 1) + [RenderEntry(fmt, es[n - 1])]
  }

  /** How many of the first `n` entries are textures. */
  function TextureCount(es: seq<Entry>, n: nat): nat
    requires n <= |es|
  {
    if n == 0 then 0 else TextureCount(es, n - 1) + (if es[n - 1].kind == Texture then 1 else 0)
  }

  /** The `shader` element of the record `s` registered as `name`. */
  function ShaderElement(fmt: Format, name: string, s: Shader): Node
    requires AllWellTyped(s.content)
  {
    Element("shader",
            [("id", name), ("script", s.script)] + (if s.compute.Some? then [("compute", s.compute.value)] else []),
            Rendered(fmt, s.content, |s.content|))
  }

  /** The `shader` elements of the first `n` registered names, in registration order. */
  function ShaderElements(fmt: Format, r: Registry, n: nat): (ns: seq<Node>)
    requires Enrolled(r) && n <= |r.order|
    ensures |ns| == n
    ensures forall i :: 0 <= i < n ==> ns[i] == ShaderElement(fmt, r.order[i], r.shaders[r.order[i]])
  {
    if n == 0 then []
    else ShaderElements(fmt, r, n - 1) + [ShaderElement(fmt, r.order[n - 1], r.shaders[r.order[n - 1]])]
  }

  /** The textures the first `n` `shader` elements write. */
  function ShaderTextures(r: Registry, n: nat): nat
    requires Enrolled(r) && n <= |r.order|
  {
    if n == 0 then 0
    else
      var s := r.shaders[r.order[n - 1]];
      ShaderTextures(r, n - 1) + TextureCount(s.content, |s.content|)
  }

  function DataElement(fmt: Format, name: string, block: seq<Entry>): Node
    requires Plain(block)
  {
    Element("assetdata", [("name", name)], Rendered(fmt, block, |block|))
  }

  /** The `assetdata` elements of the first `n` data blocks, in insertion order. */
  function DataElements(fmt: Format, data: map<string, seq<Entry>>, order: seq<string>, n: nat): (ns: seq<Node>)
    requires Stored(data, order) && n <= |order|
    ensures |ns| == n
    ensures forall i :: 0 <= i < n ==> ns[i] == DataElement(fmt, order[i], data[order[i]])
  {
    if n == 0 then []
    else DataElements(fmt, data, order, n - 1) + [DataElement(fmt, order[n - 1], data[order[n - 1]])]
  }

  function MeshElement(fmt: Format, s: Submesh): Node
    requires Plain(s.data)
  {
    Element("assetmesh", [("name", s.name), ("includes", s.includes), ("shader", s.shader)], Rendered(fmt, s.data, |s.data|))
  }

  /** The `assetmesh` elements of the first `n` submeshes, in list order. */
  function MeshElements(fmt: Format, meshes: seq<Submesh>, n: nat): (ns: seq<Node>)
    requires n <= |meshes| && MeshesPlain(meshes)
    ensures |ns| == n
    ensures forall i :: 0 <= i < n ==> ns[i] == MeshElement(fmt, meshes[i])
  {
    if n == 0 then [] else MeshElements(fmt, meshes, n - 1) + [MeshElement(fmt, meshes[n - 1])]
  }

  /** The names of the first `n` submeshes. */
  function MeshNames(meshes: seq<Submesh>, n: nat): (names: seq<string>)
    requires n <= |meshes|
    ensures |names| == n
    ensures forall i :: 0 <= i < n ==> names[i] == meshes[i].name
  {
    if n == 0 then [] else MeshNames(meshes, n - 1) + [meshes[n - 1].name]
  }

  /** The `asset` element: id `root`, one `assetdata` per data block, then
      one `assetmesh` per submesh. */
  function AssetElement(fmt: Format, data: map<string, seq<Entry>>, dataOrder: seq<string>, meshes: seq<Submesh>): Node
    requires Stored(data, dataOrder) && MeshesPlain(meshes)
  {
    Element("asset", [("id", "root")],
            DataElements(fmt, data, dataOrder, |dataOrder|) + MeshElements(fmt, meshes, |meshes|))
  }

  /** The document: an `xml3d` root whose first child is the `asset`
      element, followed by one `shader` per material. */
  function Document(fmt: Format, data: map<string, seq<Entry>>, dataOrder: seq<string>, meshes: seq<Submesh>, r: Registry): Node
    requires Stored(data, dataOrder) && MeshesPlain(meshes) && Enrolled(r)
  {
    Element("xml3d", [], [AssetElement(fmt, data, dataOrder, meshes)] + ShaderElements(fmt, r, |r.order|))
  }

  /** The document's layout: the `asset` element first, then one `shader`
      per material in registration order. */
  lemma DocumentLayout(fmt: Format, data: map<string, seq<Entry>>, dataOrder: seq<string>, meshes: seq<Submesh>, r: Registry)
    requires Stored(data, dataOrder) && MeshesPlain(meshes) && Enrolled(r)
    ensures Document(fmt, data, dataOrder, meshes, r).tag == "xml3d"
    ensures |Document(fmt, data, dataOrder, meshes, r).children| == 1 + |r.order|
    ensures Document(fmt, data, dataOrder, meshes, r).children[0] == AssetElement(fmt, data, dataOrder, meshes)
    ensures forall i :: 0 <= i < |r.order| ==>
              Document(fmt, data, dataOrder, meshes, r).children[1 + i] == ShaderElement(fmt, r.order[i], r.shaders[r.order[i]])
  {
    var doc := Document(fmt, data, dataOrder, meshes, r);
    var se := ShaderElements(fmt, r, |r.order|);
    assert doc.children == [AssetElement(fmt, data, dataOrder, meshes)] + se;
    forall i | 0 <= i < |r.order|
      ensures doc.children[1 + i] == ShaderElement(fmt, r.order[i], r.shaders[r.order[i]])
    {
      assert doc.children[1 + i] == se[i];
    }
  }

  /** The asset's layout: one `assetdata` per data block in insertion order,
      then one `assetmesh` per submesh in list order. */
  lemma AssetLayout(fmt: Format, data: map<string, seq<Entry>>, dataOrder: seq<string>, meshes: seq<Submesh>)
    requires Stored(data, dataOrder) && MeshesPlain(meshes)
    ensures AssetElement(fmt, data, dataOrder, meshes).attrs == [("id", "root")]
    ensures |AssetElement(fmt, data, dataOrder, meshes).children| == |dataOrder| + |meshes|
    ensures forall i :: 0 <= i < |dataOrder| ==>
              AssetElement(fmt, data, dataOrder, meshes).children[i] == DataElement(fmt, dataOrder[i], data[dataOrder[i]])
    ensures forall j :: 0 <= j < |meshes| ==>
              AssetElement(fmt, data, dataOrder, meshes).children[|dataOrder| + j] == MeshElement(fmt, meshes[j])
  {
    var a := AssetElement(fmt, data, dataOrder, meshes);
    var de := DataElements(fmt, data, dataOrder, |dataOrder|);
    var me := MeshElements(fmt, meshes, |meshes|);
    assert a.children == de + me;
    forall i | 0 <= i < |dataOrder|
      ensures a.children[i] == DataElement(fmt, dataOrder[i], data[dataOrder[i]])
    {
      assert a.children[i] == de[i];
    }
    forall j | 0 <= j < |meshes|
      ensures a.children[|dataOrder| + j] == MeshElement(fmt, meshes[j])
    {
      assert a.children[|dataOrder| + j] == me[j];
    }
  }

  /** Every reference a submesh holds resolves within the same document:
      its `includes` names one of the `assetdata` elements, and its `shader`
      (after the `#`) names one of the `shader` elements, by id. */
  lemma ReferencesResolve(fmt: Format, data: map<string, seq<Entry>>, dataOrder: seq<string>, meshes: seq<Submesh>, r: Registry, j: nat)
    requires Consistent(data, dataOrder, meshes, r) && j < |meshes|
    ensures Stored(data, dataOrder) && MeshesPlain(meshes) && Enrolled(r)
    ensures IndexOf(dataOrder, meshes[j].includes) < |dataOrder|
    ensures AssetElement(fmt, data, dataOrder, meshes).children[IndexOf(dataOrder, meshes[j].includes)] ==
            DataElement(fmt, meshes[j].includes, data[meshes[j].includes])
    ensures IndexOf(r.order, meshes[j].shader[1..]) < |r.order|
    ensures Document(fmt, data, dataOrder, meshes, r).children[1 + IndexOf(r.order, meshes[j].shader[1..])] ==
            ShaderElement(fmt, meshes[j].shader[1..], r.shaders[meshes[j].shader[1..]])
  {
    ConsistentWritable(data, dataOrder, meshes, r);
    MeshReferences(data, dataOrder, meshes, r, j);
    WritableReferences(fmt, data, dataOrder, meshes, r, meshes[j]);
  }

  /** The references of a submesh whose names are recorded resolve. */
  lemma WritableReferences(fmt: Format, data: map<string, seq<Entry>>, dataOrder: seq<string>, meshes: seq<Submesh>, r: Registry, s: Submesh)
    requires Stored(data, dataOrder) && MeshesPlain(meshes) && Enrolled(r)
    requires s.includes in dataOrder && |s.shader| > 0 && s.shader[1..] in r.order
    ensures IndexOf(dataOrder, s.includes) < |dataOrder|
    ensures AssetElement(fmt, data, dataOrder, meshes).children[IndexOf(dataOrder, s.includes)] ==
            DataElement(fmt, s.includes, data[s.includes])
    ensures IndexOf(r.order, s.shader[1..]) < |r.order|
    ensures Document(fmt, data, dataOrder, meshes, r).children[1 + IndexOf(r.order, s.shader[1..])] ==
            ShaderElement(fmt, s.shader[1..], r.shaders[s.shader[1..]])
  {
    DataReference(fmt, data, dataOrder, meshes, s.includes);
    ShaderReference(fmt, data, dataOrder, meshes, r, s.shader[1..]);
  }

  /** A consistent submesh's references are recorded in insertion order. */
  lemma MeshReferences(data: map<string, seq<Entry>>, dataOrder: seq<string>, meshes: seq<Submesh>, r: Registry, j: nat)
    requires Consistent(data, dataOrder, meshes, r) && j < |meshes|
    ensures |meshes[j].shader| > 0
    ensures meshes[j].includes in dataOrder && meshes[j].shader[1..] in r.order
  {
    assert SubmeshOk(meshes[j]);
    assert meshes[j].includes in data && meshes[j].shader[1..] in r.shaders;
  }

  lemma DataReference(fmt: Format, data: map<string, seq<Entry>>, dataOrder: seq<string>, meshes: seq<Submesh>, inc: string)
    requires Stored(data, dataOrder) && MeshesPlain(meshes) && inc in dataOrder
    ensures IndexOf(dataOrder, inc) < |dataOrder| && inc in data
    ensures AssetElement(fmt, data, dataOrder, meshes).children[IndexOf(dataOrder, inc)] == DataElement(fmt, inc, data[inc])
  {
    DataNamed(fmt, data, dataOrder, inc);
    AssetChild(fmt, data, dataOrder, meshes, IndexOf(dataOrder, inc));
  }

  lemma ShaderReference(fmt: Format, data: map<string, seq<Entry>>, dataOrder: seq<string>, meshes: seq<Submesh>, r: Registry, sh: string)
    requires Stored(data, dataOrder) && MeshesPlain(meshes) && Enrolled(r) && sh in r.order
    ensures IndexOf(r.order, sh) < |r.order| && sh in r.shaders
    ensures Document(fmt, data, dataOrder, meshes, r).children[1 + IndexOf(r.order, sh)] == ShaderElement(fmt, sh, r.shaders[sh])
  {
    ShaderNamed(fmt, r, sh);
    DocumentChild(fmt, data, dataOrder, meshes, r, IndexOf(r.order, sh));
  }

  /** The `k`-th child of the asset is the `k`-th data element. */
  lemma AssetChild(fmt: Format, data: map<string, seq<Entry>>, dataOrder: seq<string>, meshes: seq<Submesh>, k: nat)
    requires Stored(data, dataOrder) && MeshesPlain(meshes) && k < |dataOrder|
    ensures AssetElement(fmt, data, dataOrder, meshes).children[k] == DataElements(fmt, data, dataOrder, |dataOrder|)[k]
  {
    var de := DataElements(fmt, data, dataOrder, |dataOrder|);
    assert AssetElement(fmt, data, dataOrder, meshes).children == de + MeshElements(fmt, meshes, |meshes|);
  }

  /** The child after the `asset` element at offset `k` is the `k`-th shader element. */
  lemma DocumentChild(fmt: Format, data: map<string, seq<Entry>>, dataOrder: seq<string>, meshes: seq<Submesh>, r: Registry, k: nat)
    requires Stored(data, dataOrder) && MeshesPlain(meshes) && Enrolled(r) && k < |r.order|
    ensures Document(fmt, data, dataOrder, meshes, r).children[1 + k] == ShaderElements(fmt, r, |r.order|)[k]
  {
    var se := ShaderElements(fmt, r, |r.order|);
    assert Document(fmt, data, dataOrder, meshes, r).children == [AssetElement(fmt, data, dataOrder, meshes)] + se;
  }

  /** The data element at the first position of `inc` is the one of `inc`. */
  lemma DataNamed(fmt: Format, data: map<string, seq<Entry>>, dataOrder: seq<string>, inc: string)
    requires Stored(data, dataOrder) && inc in dataOrder
    ensures IndexOf(dataOrder, inc) < |dataOrder| && inc in data
    ensures DataElements(fmt, data, dataOrder, |dataOrder|)[IndexOf(dataOrder, inc)] == DataElement(fmt, inc, data[inc])
  {
    var k := IndexOf(dataOrder, inc);
    assert DataElements(fmt, data, dataOrder, |dataOrder|)[k] == DataElement(fmt, dataOrder[k], data[dataOrder[k]]);
  }

  /** The shader element at the first position of `sh` is the one of `sh`. */
  lemma ShaderNamed(fmt: Format, r: Registry, sh: string)
    requires Enrolled(r) && sh in r.order
    ensures IndexOf(r.order, sh) < |r.order| && sh in r.shaders
    ensures ShaderElements(fmt, r, |r.order|)[IndexOf(r.order, sh)] == ShaderElement(fmt, sh, r.shaders[sh])
  {
    var k := IndexOf(r.order, sh);
    assert ShaderElements(fmt, r, |r.order|)[k] == ShaderElement(fmt, r.order[k], r.shaders[r.order[k]]);
  }
}
