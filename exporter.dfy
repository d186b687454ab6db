/** `AssetExporter`: collects the asset graph and the material registry of
    the meshes it is given, and writes them out as one XML3D document. */
module Exporter {
  import opened Types
  import opened Welder
  import opened Content
  import opened Records

  /** Writing a list of entries: their elements in order, textures counted. */
  method WriteEntries(fmt: Format, entries: seq<Entry>, stats: Stats?) returns (nodes: seq<Node>)
    requires AllWellTyped(entries)
    requires stats == null ==> Plain(entries)
    modifies stats
    ensures nodes == Rendered(fmt, entries, |entries|)
    ensures stats != null ==> stats.materials == old(stats.materials) && stats.meshes == old(stats.meshes)
    ensures stats != null ==> stats.textures == old(stats.textures) + TextureCount(entries, |entries|)
  {
    nodes := [];
    for j := 0 to |entries|
      invariant nodes == Rendered(fmt, entries, j)
      invariant stats != null ==> stats.materials == old(stats.materials) && stats.meshes == old(stats.meshes)
      invariant stats != null ==> stats.textures == old(stats.textures) + TextureCount(entries, j)
    {
      var elem := WriteGenericContent(fmt, entries[j], stats);
      nodes := nodes + [elem];
    }
  }

  class AssetExporter {
    /** `_asset["data"]`: mesh name to data block, keys in `dataOrder`. */
    var data: map<string, seq<Entry>>
    var dataOrder: seq<string>
    /** `_asset["mesh"]`: the submesh records in insertion order. */
    var meshes: seq<Submesh>
    /** `_material`: material name to record, keys in `materialOrder`. */
    var materials: map<string, Shader>
    var materialOrder: seq<string>

    function Materials(): Registry
      reads this
    {
      Registry(materials, materialOrder)
    }

    ghost predicate Valid()
      reads this
    {
      Consistent(data, dataOrder, meshes, Materials())
    }

    /** `__init__`: empty registries. */
    constructor()
      ensures Valid()
      ensures data == map[] && dataOrder == [] && meshes == [] && materials == map[] && materialOrder == []
    {
      data := map[];
      dataOrder := [];
      meshes := [];
      materials := map[];
      materialOrder := [];
    }

    /** `add_default_material`: registers the default record unless the
        name is taken. */
    method AddDefaultMaterial()
      requires RegistryOk(Materials())
      modifies this
      ensures RegistryOk(Materials())
      ensures Materials() == Enroll(old(Materials()), DEFAULT_MATERIAL, DefaultShader())
      ensures data == old(data) && dataOrder == old(dataOrder) && meshes == old(meshes)
    {
      if DEFAULT_MATERIAL in materials {
        return;
      }
      var content := [Entry(Float3, "diffuseColor", Text("0.8 0.8 0.8")),
                      Entry(Float3, "specularColor", Text("1.0 1.0 0.1")),
                      Entry(Float, "ambientIntensity", Text("0.5"))];
      EnrollOk(Materials(), DEFAULT_MATERIAL, DefaultShader());
      materials := materials[DEFAULT_MATERIAL := Shader(content, PHONG, None)];
      materialOrder := materialOrder + [DEFAULT_MATERIAL];
    }

    /** `add_material`: registers the record of `material` unless its name
        is taken: the six fixed parameters, then one `diffuseTexture` per
        qualifying texture slot, in slot order. */
    method AddMaterial(material: Material)
      requires RegistryOk(Materials())
      modifies this
      ensures RegistryOk(Materials())
      ensures Materials() == Enroll(old(Materials()), material.name, MaterialShader(material))
      ensures data == old(data) && dataOrder == old(dataOrder) && meshes == old(meshes)
    {
      if material.name in materials {
        return;
      }
      var content := MaterialParams(material);
      var slots := material.textureSlots;
      for i := 0 to |slots|
        invariant content == MaterialParams(material) + TextureEntries(slots[..i])
      {
        assert slots[..i + 1][..i] == slots[..i];
        var entry := slots[i];
        if !entry.enabled || entry.slot.None? {
          continue;
        }
        var slot := entry.slot.value;
        if !slot.useMapColorDiffuse || slot.diffuseColorFactor < MIN_DIFFUSE_FACTOR {
          continue;
        }
        if slot.textureCoords != "UV" {
          // the source warns and skips the slot
          continue;
        }
        if slot.textureType != "IMAGE" {
          continue;
        }
        if slot.imageSource != "FILE" && slot.imageSource != "VIDEO" {
          continue;
        }
        content := content + [Entry(Texture, "diffuseTexture", Text(slot.imageSrc))];
      }
      assert slots[..|slots|] == slots;
      MaterialShaderShape(material);
      EnrollOk(Materials(), material.name, MaterialShader(material));
      materials := materials[material.name := Shader(content, PHONG, Some(BLENDER2XML_MATERIAL))];
      materialOrder := materialOrder + [material.name];
    }

    /** `_asset["data"][name] = {"content": content}`. */
    method StoreData(name: string, content: seq<Entry>)
      requires Valid() && DataOk(content)
      modifies this
      ensures Valid()
      ensures data == old(data)[name := content]
      ensures dataOrder == old(dataOrder) + (if name in old(data) then [] else [name])
      ensures meshes == old(meshes) && Materials() == old(Materials())
    {
      StoreOk(data, dataOrder, name, content);
      MeshesWiden(meshes, data, materials, data[name := content], materials);
      if name !in data {
        dataOrder := dataOrder + [name];
      }
      data := data[name := content];
    }

    /** One pass of the submesh loop of `addMeshData`: the record of slot
        `m` is appended and the slot's material registered. */
    method AddSubmesh(mesh: Mesh, m: nat, idx: seq<nat>)
      requires MeshOk(mesh) && m < SlotCount(mesh)
      requires Valid() && mesh.name in data
      requires idx == SlotIndices(mesh, m) && |idx| > 0
      modifies this
      ensures Valid()
      ensures meshes == old(meshes) + [SubmeshOf(mesh, m, idx)]
      ensures data == old(data) && dataOrder == old(dataOrder)
      ensures Materials() == Enroll(old(Materials()), SlotName(mesh, m), SlotRecord(mesh, m))
    {
      var material := SlotMaterial(mesh, m);
      var materialName := if material.Some? then material.value.name else DEFAULT_MATERIAL;
      var submesh := Submesh(mesh.name + "_" + materialName, mesh.name, [Entry(Int, "index", Ints(idx))], "#" + materialName);
      ghost var meshes0 := meshes;
      ghost var reg0 := Materials();
      meshes := meshes + [submesh];
      if material.Some? {
        AddMaterial(material.value);
      } else {
        AddDefaultMaterial();
      }
      SubmeshFits(mesh, m);
      SlotRecordOk(mesh, m);
      EnrollOk(reg0, SlotName(mesh, m), SlotRecord(mesh, m));
      MeshesWiden(meshes0, data, reg0.shaders, data, materials);
      MeshesAppend(meshes0, submesh, data, materials);
    }

    /** `addMeshData`: welds the mesh's faces, stores its arrays under the
        mesh name (an existing name keeps its position), then appends one
        submesh per non-empty index list, in slot order, registering each
        such slot's material. A mesh without faces, or whose faces weld to
        no vertex, changes nothing. */
    method AddMeshData(mesh: Mesh)
      requires MeshOk(mesh) && Valid()
      modifies this
      ensures Valid()
      ensures !Exports(mesh) ==>
                data == old(data) && dataOrder == old(dataOrder) && meshes == old(meshes) &&
                Materials() == old(Materials())
      ensures Exports(mesh) ==> data == old(data)[mesh.name := MeshArrays(mesh)]
      ensures Exports(mesh) ==>
                dataOrder == old(dataOrder) + (if mesh.name in old(data) then [] else [mesh.name])
      ensures Exports(mesh) ==> meshes == old(meshes) + Submeshes(mesh, SlotCount(mesh))
      ensures Exports(mesh) ==> Materials() == RegisterSlots(old(Materials()), mesh, SlotCount(mesh))
    {
      var meshName := mesh.name;
      var r := ExportTessfaces(mesh);
      if r.None? || |r.value.vertices| == 0 {
        return;
      }
      var vertices := r.value.vertices;
      var indices := r.value.indices;
      var content := VertexArrays(mesh, vertices);
      ArraysAligned(mesh);
      StoreData(meshName, content);
      AddSubmeshes(mesh, indices);
    }

    /** The submesh loop of `addMeshData`, over the index lists of the
        welded mesh, one per material slot. */
    method AddSubmeshes(mesh: Mesh, indices: seq<seq<nat>>)
      requires MeshOk(mesh) && Valid() && mesh.name in data
      requires |indices| == SlotCount(mesh)
      requires forall m :: 0 <= m < |indices| ==> indices[m] == SlotIndices(mesh, m)
      modifies this
      ensures Valid()
      ensures data == old(data) && dataOrder == old(dataOrder)
      ensures meshes == old(meshes) + Submeshes(mesh, SlotCount(mesh))
      ensures Materials() == RegisterSlots(old(Materials()), mesh, SlotCount(mesh))
    {
      ghost var meshes0, reg0 := meshes, Materials();
      for materialIndex := 0 to |indices|
        invariant Valid() && mesh.name in data
        invariant data == old(data) && dataOrder == old(dataOrder)
        invariant meshes == meshes0 + Submeshes(mesh, materialIndex)
        invariant Materials() == RegisterSlots(reg0, mesh, materialIndex)
      {
        AddSlot(mesh, materialIndex, indices[materialIndex], meshes0, reg0);
      }
    }

    /** One slot of the submesh loop: an empty index list is skipped,
        otherwise the slot's submesh is added. */
    method AddSlot(mesh: Mesh, m: nat, idx: seq<nat>, ghost meshes0: seq<Submesh>, ghost reg0: Registry)
      requires MeshOk(mesh) && m < SlotCount(mesh) && idx == SlotIndices(mesh, m)
      requires Valid() && mesh.name in data
      requires meshes == meshes0 + Submeshes(mesh, m)
      requires Materials() == RegisterSlots(reg0, mesh, m)
      modifies this
      ensures Valid() && data == old(data) && dataOrder == old(dataOrder)
      ensures meshes == meshes0 + Submeshes(mesh, m + 1)
      ensures Materials() == RegisterSlots(reg0, mesh, m + 1)
    {
      SubmeshesNext(meshes0, mesh, m);
      if |idx| > 0 {
        AddSubmesh(mesh, m, idx);
      }
    }

    /** The document `saveXML` builds from the current records. */
    function CurrentDocument(fmt: Format): Node
      reads this
      requires Valid()
    {
      ConsistentWritable(data, dataOrder, meshes, Materials());
      Records.Document(fmt, data, dataOrder, meshes, Materials())
    }

    /** `saveXML`: the `asset` element first, then one `shader` per material
        in registration order; under `asset`, one `assetdata` per data block
        in insertion order, then one `assetmesh` per submesh in list order.
        Counts the shaders and the textures written and lists the submesh
        names in `stats`. */
    method SaveXML(fmt: Format, stats: Stats) returns (doc: Node)
      requires Valid()
      modifies stats
      ensures doc == CurrentDocument(fmt)
      ensures stats.materials == old(stats.materials) + |materialOrder|
      ensures stats.meshes == old(stats.meshes) + MeshNames(meshes, |meshes|)
      ensures stats.textures == old(stats.textures) + ShaderTextures(Materials(), |materialOrder|)
    {
      ConsistentWritable(data, dataOrder, meshes, Materials());
      var shaders := WriteShaders(fmt, Materials(), stats);
      var assetData := WriteAssetData(fmt, data, dataOrder);
      var assetMeshes := WriteAssetMeshes(fmt, meshes, stats);
      var asset := Element("asset", [("id", "root")], assetData + assetMeshes);
      doc := Element("xml3d", [], [asset] + shaders);
    }
  }

  /** The shader loop of `saveXML`. */
  method WriteShaders(fmt: Format, r: Registry, stats: Stats) returns (shaders: seq<Node>)
    requires Enrolled(r)
    modifies stats
    ensures shaders == ShaderElements(fmt, r, |r.order|)
    ensures stats.materials == old(stats.materials) + |r.order|
    ensures stats.meshes == old(stats.meshes)
    ensures stats.textures == old(stats.textures) + ShaderTextures(r, |r.order|)
  {
    shaders := [];
    for i := 0 to |r.order|
      invariant shaders == ShaderElements(fmt, r, i)
      invariant stats.materials == old(stats.materials) + i
      invariant stats.meshes == old(stats.meshes)
      invariant stats.textures == old(stats.textures) + ShaderTextures(r, i)
    {
      var name := r.order[i];
      var shader := WriteShader(fmt, name, r.shaders[name], stats);
      shaders := shaders + [shader];
    }
  }

  /** The data-block loop of `saveXML`; no stats are passed to the writer. */
  method WriteAssetData(fmt: Format, data: map<string, seq<Entry>>, order: seq<string>) returns (nodes: seq<Node>)
    requires Stored(data, order)
    ensures nodes == DataElements(fmt, data, order, |order|)
  {
    nodes := [];
    for i := 0 to |order|
      invariant nodes == DataElements(fmt, data, order, i)
    {
      var name := order[i];
      var children := WriteEntries(fmt, data[name], null);
      nodes := nodes + [Element("assetdata", [("name", name)], children)];
    }
  }

  /** The submesh loop of `saveXML`; each submesh name is listed in `stats`. */
  method WriteAssetMeshes(fmt: Format, meshes: seq<Submesh>, stats: Stats) returns (nodes: seq<Node>)
    requires MeshesPlain(meshes)
    modifies stats
    ensures nodes == MeshElements(fmt, meshes, |meshes|)
    ensures stats.materials == old(stats.materials) && stats.textures == old(stats.textures)
    ensures stats.meshes == old(stats.meshes) + MeshNames(meshes, |meshes|)
  {
    nodes := [];
    for i := 0 to |meshes|
      invariant nodes == MeshElements(fmt, meshes, i)
      invariant stats.materials == old(stats.materials) && stats.textures == old(stats.textures)
      invariant stats.meshes == old(stats.meshes) + MeshNames(meshes, i)
    {
      var mesh := WriteMesh(fmt, meshes[i], stats);
      nodes := nodes + [mesh];
    }
  }

  /** One pass of the shader loop of `saveXML`: the `shader` element of a
      record, counted with its textures in `stats`. */
  method WriteShader(fmt: Format, name: string, material: Shader, stats: Stats) returns (elem: Node)
    requires AllWellTyped(material.content)
    modifies stats
    ensures elem == ShaderElement(fmt, name, material)
    ensures stats.materials == old(stats.materials) + 1 && stats.meshes == old(stats.meshes)
    ensures stats.textures == old(stats.textures) + TextureCount(material.content, |material.content|)
  {
    var attrs := [("id", name), ("script", material.script)];
    if material.compute.Some? {
      attrs := attrs + [("compute", material.compute.value)];
    }
    var children := WriteEntries(fmt, material.content, stats);
    elem := Element("shader", attrs, children);
    stats.materials := stats.materials + 1;
  }

  /** One pass of the submesh loop of `saveXML`: the `assetmesh` element of
      a submesh, whose name is listed in `stats`. */
  method WriteMesh(fmt: Format, submesh: Submesh, stats: Stats) returns (elem: Node)
    requires Plain(submesh.data)
    modifies stats
    ensures elem == MeshElement(fmt, submesh)
    ensures stats.materials == old(stats.materials) && stats.textures == old(stats.textures)
    ensures stats.meshes == old(stats.meshes) + [submesh.name]
  {
    var children := WriteEntries(fmt, submesh.data, null);
    elem := Element("assetmesh", [("name", submesh.name), ("includes", submesh.includes), ("shader", submesh.shader)], children);
    stats.meshes := stats.meshes + [submesh.name];
  }

  /** `addMeshData`'s array loop: positions, normals and (when the first
      vertex has one) texture coordinates, one per welded vertex. */
  method VertexArrays(mesh: Mesh, vertices: seq<Vertex>) returns (content: seq<Entry>)
    requires MeshOk(mesh) && Exports(mesh) && vertices == WeldedVertices(mesh)
    ensures content == MeshArrays(mesh)
  {
    WeldedKeys(mesh);
    var positions: seq<seq<real>> := [];
    var normals: seq<seq<real>> := [];
    var texcoord: seq<seq<real>> := [];
    var hasTexcoords := vertices[0].texcoord.Some?;
    for i := 0 to |vertices|
      invariant positions == Positions(mesh, vertices[..i])
      invariant normals == Normals(vertices[..i])
      invariant hasTexcoords ==> texcoord == Texcoords(vertices[..i])
    {
      assert vertices[..i + 1][..i] == vertices[..i];
      var v := vertices[i];
      positions := positions + [Vec3Tuple(mesh.vertices[v.index].co)];
      normals := normals + [Vec3Tuple(v.normal)];
      if hasTexcoords {
        texcoord := texcoord + [UVTuple(v.texcoord.value)];
      }
    }
    assert vertices[..|vertices|] == vertices;
    content := [Entry(Float3, "position", Tuples(positions)), Entry(Float3, "normal", Tuples(normals))];
    if hasTexcoords {
      content := content + [Entry(Float2, "texcoord", Tuples(texcoord))];
    }
  }
}
