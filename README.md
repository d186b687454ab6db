# XML3D asset exporter — a Dafny model

This project models the in-memory core of the Blender XML3D exporter's
`AssetExporter` (`addons/io_scene_xml3d/export_asset.py`). The exporter
turns Blender meshes into an XML3D *asset*. It has four parts:

- **Vertex welder.** `export_tessfaces` walks the faces of a mesh. Every
  corner becomes a `Vertex(index, normal, uv)` key. Keys are interned into
  one shared vertex list through `appendUnique`. Each face's local indices
  are appended to the index list of its material slot, and a quad
  `[a,b,c,d]` is split into `[a,b,c,c,d,a]`.
- **Asset graph.** `addMeshData` stores the position, normal and (optional)
  texcoord arrays under the mesh name. It then appends one submesh record per
  non-empty slot index list.
- **Material registry.** `add_material` and `add_default_material` store one
  shader record per material name. Registration is idempotent by name. A
  named material's record holds six fixed parameters followed by one
  `diffuseTexture` per texture slot that passes the six-way filter.
- **Writer.** `writeGenericContent` renders one typed parameter as an
  element. `saveXML` assembles the document:
  - the root `xml3d`;
  - its `asset` element (`assetdata` per data block, then `assetmesh` per
    submesh);
  - one `shader` per registered record.

  It also updates the exporter's statistics.

Modules, following the source:

| file | module | what |
|---|---|---|
| `types.dfy` | `Types` | mesh, face, vertex, material, entry and element-tree values |
| `welder.dfy` | `Welder` | `appendUnique`, the welder as a method with loops, and the specification functions it is proved against |
| `content.dfy` | `Content` | the statistics object, `writeGenericContent` and the text layout of integers and float tuples |
| `records.dfy` | `Records` | the records the exporter keeps, the registry discipline, the document as a function of the records, and the lemmas about them |
| `exporter.dfy` | `Exporter` | the `AssetExporter` class: its fields and the methods that update them, and the `saveXML` loops |

Design of the model:

- **Fields.** The exporter is a class. `_asset["data"]` and `_material` are
  Python dicts, which keep insertion order and which `saveXML` iterates. Each
  is a `map` plus a `seq` of keys in insertion order. Storing under an
  existing key replaces the value and keeps the key's position, as a Python
  dict does.
- **Class invariant.** `Valid()` of the class holds:
  - every map and its key order agree and the order has no repeats;
  - every stored entry is well typed;
  - every submesh is well formed, includes a stored data block and names a
    registered shader.

  Every method that changes the data or the submeshes preserves it. The
  two material methods keep the registry well formed.
- **Specification functions.** Each method that changes state is proved
  against a function of its inputs and the old state:
  - `AddMeshData` against `MeshArrays`, `Submeshes` and `RegisterSlots`;
  - `ExportTessfaces` against `WeldedVertices` and `SlotIndices`;
  - `SaveXML` against `CurrentDocument`, which is `Records.Document` of the
    current fields.

  The lemmas of `Records` and `Welder` state what those functions guarantee.
- **Opaque formatting.** The number formatting of `"%.6f"` and of
  `str(float)` is an opaque parameter (`Format`). The model only proves the
  token layout around it.

`saveXML` appends the `asset` element to `xml3d` (lines 231-233) before the
shader loop (line 235), so `Records.Document` and `Records.DocumentLayout`
put the asset first.

## Model

All paths are `addons/io_scene_xml3d/export_asset.py`.

| member | source | states |
|---|---|---|
| Welder.AppendUnique | addons/io_scene_xml3d/export_asset.py:9-15 | A present key returns its stored index, `False` and the map unchanged. An absent key returns the old size, `True`, and a map grown by exactly that key at that index. Every old entry is kept. |
| Welder.Triangulate | addons/io_scene_xml3d/export_asset.py:163-170 | Three local indices pass unchanged. A quad `[a,b,c,d]` becomes `[a,b,c,c,d,a]`. Any other corner count contributes nothing. The result's length is a multiple of 3 and it uses only the face's own indices. |
| Welder.InternCorners | addons/io_scene_xml3d/export_asset.py:149-161 | The corner loop for face `f` extends the vertex list to the first-seen welded list of faces `0..f`. It keeps every dictionary entry equal to its vertex's position. The face indices are the positions of the corner keys. |
| Welder.WeldFace | addons/io_scene_xml3d/export_asset.py:141-170 | One face step moves the vertex list, the dictionary and the index lists from their values after `f` faces to their values after `f + 1` faces. |
| Welder.ExportTessfaces | addons/io_scene_xml3d/export_asset.py:117-172 | The result is `None` exactly when the mesh has no faces. Otherwise the vertices are the welded list, with no duplicates. There are `max(1, materialCount)` index lists. List `m` is slot `m`'s triangles, its length is a multiple of 3 and each index is below the vertex count. |
| Welder.WeldedShape | addons/io_scene_xml3d/export_asset.py:126-172 | After the face loop the vertex list has no duplicates and the list count is the slot count. Every list is its slot's triangles, whole triangles only, within the vertex list. |
| Welder.DedupNoDup | addons/io_scene_xml3d/export_asset.py:157-161 | The interned vertex list holds no two equal keys. |
| Welder.DedupElements | addons/io_scene_xml3d/export_asset.py:157-161 | A key is in the vertex list exactly when some corner produced it. |
| Welder.DedupFirstSeenOrder | addons/io_scene_xml3d/export_asset.py:129-161 | Vertices appear in the order their keys were first seen among the corners. |
| Welder.CornerIndex | addons/io_scene_xml3d/export_asset.py:151-158 | A corner's local index is the position of its key in the final vertex list, and that entry is the key. |
| Welder.WeldIdentity | addons/io_scene_xml3d/export_asset.py:151-161 | Two corners get the same local index exactly when their `Vertex` keys are equal. |
| Welder.IndexListsSlots | addons/io_scene_xml3d/export_asset.py:163-168 | Slot `m`'s index list is the concatenation, in face order, of the triangulated faces whose material index is `m`. |
| Welder.EmittedTriangles | addons/io_scene_xml3d/export_asset.py:163-168 | Appending whole triangles keeps each slot's list length a multiple of 3. |
| Welder.FaceStep | addons/io_scene_xml3d/export_asset.py:163-170 | `extend` with the three indices, or with the in-place rewritten quad `faceIndices[3:] = [c, d, a]`, yields the specification lists after one more face. A face of any other size leaves them unchanged. |
| Content.Stats.constructor | addons/io_scene_xml3d/export_asset.py:302 | The statistics start at zero materials, no mesh names and zero textures. |
| Content.ParseIntText | addons/io_scene_xml3d/export_asset.py:277 | `str` of an integer loses nothing: parsing the text gives the integer back. |
| Content.JoinIntsRoundTrip | addons/io_scene_xml3d/export_asset.py:277 | Integers joined by single spaces decode back to the same list. |
| Content.TuplesTextFlat | addons/io_scene_xml3d/export_asset.py:287-291 | The text accumulated tuple by tuple equals one `"%.6f "` token per component of the flattened list, in order. |
| Content.TerminatedFields | addons/io_scene_xml3d/export_asset.py:290-291 | Splitting that text on spaces gives exactly the formatted components, then one empty field from the trailing space. |
| Content.RenderEntry | addons/io_scene_xml3d/export_asset.py:269-296 | The element is tagged with the entry's type and carries only the `name` attribute. It has at most one child and never an empty text node. |
| Content.RenderInts | addons/io_scene_xml3d/export_asset.py:276-277 | An `int` entry has a text node exactly when its list is non-empty, and that text decodes to the list. |
| Content.RenderTuples | addons/io_scene_xml3d/export_asset.py:283-295 | A list of float tuples gives no text when empty. Otherwise the one text node splits into the formatted components plus a trailing empty field. |
| Content.RenderWhole | addons/io_scene_xml3d/export_asset.py:284-285 | A whole-number value (the specular hardness) gives one text node that reads back as the number. |
| Content.RenderScalar | addons/io_scene_xml3d/export_asset.py:284-285 | A string or float value (the default record's parameters, the four float parameters) is rendered as `str(value)`. That text is the element's one text node, and an empty string gives no text node. |
| Content.RenderTexture | addons/io_scene_xml3d/export_asset.py:278-281 | A texture entry has exactly one `img` child whose `src` is the value. |
| Content.WriteGenericContent | addons/io_scene_xml3d/export_asset.py:269-296 | The returned element is the entry's rendering. `stats.textures` grows by one exactly for a texture. The other counters are untouched. |
| Records.DefaultShader | addons/io_scene_xml3d/export_asset.py:25-34 | The default record has exactly three well-typed, non-texture parameters, the phong script and no `compute`. |
| Records.DiffuseColorIgnored | addons/io_scene_xml3d/export_asset.py:42-45 | The material's own diffuse colour never reaches its record. The `diffuse_color` parameter carries the specular colour, as `specular_color` does. |
| Records.TextureEntriesExact | addons/io_scene_xml3d/export_asset.py:50-91 | A `diffuseTexture` with source `src` is in the record exactly when some slot passes all six filter conditions and resolves to `src`. |
| Records.TextureEntriesShape | addons/io_scene_xml3d/export_asset.py:50-91 | The texture entries correspond one for one, in slot order, to the slots that pass the filter: entry `k` carries the image URI of the `k`-th qualifying slot, so there are exactly as many entries as qualifying slots. Each is a well-typed `texture` entry named `diffuseTexture`. |
| Records.MaterialShaderShape | addons/io_scene_xml3d/export_asset.py:41-93 | A named record is well typed, uses the phong script and the `BLENDER2XML_MATERIAL` compute. It begins with the six fixed parameters, and everything after them is a `diffuseTexture` entry. |
| Records.OrderedPut | addons/io_scene_xml3d/export_asset.py:206 | Storing a key in an insertion-ordered dict keeps the map and its order in step. A new key goes last and an existing key keeps its place. |
| Records.EnrollOk | addons/io_scene_xml3d/export_asset.py:37-40 | Registering keeps the registry well formed, makes the name present and keeps every earlier record and its position. |
| Records.EnrollIdempotent | addons/io_scene_xml3d/export_asset.py:25-27 | Registering a name a second time changes nothing. The stored record is the first one registered under that name. |
| Records.StoreOk | addons/io_scene_xml3d/export_asset.py:206 | Storing a well-formed data block keeps the data store consistent with its insertion order. |
| Records.WeldedKeys | addons/io_scene_xml3d/export_asset.py:151-155 | Every welded vertex names a mesh vertex. It has a texcoord exactly when the mesh has a UV layer. |
| Records.ArraysAligned | addons/io_scene_xml3d/export_asset.py:189-204 | The stored `position`, `normal` and (only when the mesh has UVs) `texcoord` arrays each have one tuple per welded vertex, aligned index by index with the vertex list. |
| Records.SlotIndicesShape | addons/io_scene_xml3d/export_asset.py:163-168 | Every slot's index list has whole triangles only and indexes within the welded vertex list. |
| Records.SubmeshFits | addons/io_scene_xml3d/export_asset.py:213-219 | The submesh of a non-empty slot is named mesh name + `_` + material name and includes the mesh. Its shader is `#` + material name, with `defaultMaterial` when the mesh has no materials. |
| Records.SubmeshesNext | addons/io_scene_xml3d/export_asset.py:209-219 | An empty slot adds no submesh. A non-empty one appends exactly its own record. |
| Records.SubmeshesShape | addons/io_scene_xml3d/export_asset.py:209-219 | Every submesh added for a mesh is well formed, includes that mesh and indexes only within its welded vertices. |
| Records.RegisterSlotsOk | addons/io_scene_xml3d/export_asset.py:209-224 | Registering the materials of a mesh keeps the registry well formed and keeps earlier records. Afterwards the material of every used slot is registered. |
| Records.ShaderElements | addons/io_scene_xml3d/export_asset.py:235-246 | Shader element `i` is the element of the `i`-th registered name, in registry insertion order. |
| Records.DataElements | addons/io_scene_xml3d/export_asset.py:248-254 | `assetdata` element `i` is the one of the `i`-th stored name, in data insertion order. |
| Records.MeshElements | addons/io_scene_xml3d/export_asset.py:256-264 | `assetmesh` element `i` is the one of the `i`-th submesh record. |
| Records.MeshNames | addons/io_scene_xml3d/export_asset.py:265 | The names appended to `stats.meshes` are the submesh names, in list order. |
| Records.DocumentLayout | addons/io_scene_xml3d/export_asset.py:227-246 | The root is `xml3d`. Its first child is the `asset` element, followed by exactly one `shader` per registered name in insertion order. |
| Records.AssetLayout | addons/io_scene_xml3d/export_asset.py:231-232 | The `asset` element has `id="root"`. Its children are the `assetdata` elements in data insertion order, then the `assetmesh` elements in submesh order. |
| Records.ReferencesResolve | addons/io_scene_xml3d/export_asset.py:256-265 | In consistent records, every submesh's `includes` names an `assetdata` element of the same document. Its `shader` (after `#`) names a `shader` element of that document, found at that name's insertion position. |
| Exporter.AssetExporter.constructor | addons/io_scene_xml3d/export_asset.py:18-23 | A new exporter has no data, no submeshes and no materials, and is consistent. |
| Exporter.AssetExporter.AddDefaultMaterial | addons/io_scene_xml3d/export_asset.py:25-34 | The registry becomes the old one with `defaultMaterial` enrolled: unchanged if present, otherwise the default record appended last. Nothing else changes. |
| Exporter.AssetExporter.AddMaterial | addons/io_scene_xml3d/export_asset.py:37-93 | The registry becomes the old one with the material's record enrolled under its name. The slot loop builds the six parameters followed by the filtered texture entries. Nothing else changes. |
| Exporter.AssetExporter.StoreData | addons/io_scene_xml3d/export_asset.py:206 | The data block is stored under the name. The name is appended to the order only if new. The exporter stays consistent. |
| Exporter.AssetExporter.AddSubmesh | addons/io_scene_xml3d/export_asset.py:210-224 | The slot's submesh record is appended and its material (or the default) enrolled. The exporter stays consistent. |
| Exporter.AssetExporter.AddSlot | addons/io_scene_xml3d/export_asset.py:209-224 | One pass of the submesh loop advances the submesh list and the registry from slot `m` to slot `m + 1` of their specifications. |
| Exporter.AssetExporter.AddSubmeshes | addons/io_scene_xml3d/export_asset.py:209-224 | The submesh list gains exactly the mesh's submeshes in slot order, and the registry becomes `RegisterSlots` of the old one. The data is untouched. |
| Exporter.AssetExporter.AddMeshData | addons/io_scene_xml3d/export_asset.py:175-224 | A mesh without faces or welded vertices changes nothing. Otherwise the data block is the aligned arrays, stored in insertion order. The submeshes and registry grow as specified. The exporter stays consistent. |
| Exporter.AssetExporter.SaveXML | addons/io_scene_xml3d/export_asset.py:226-266 | The document built is the records' `Document`. `stats.materials` grows by the number of records. `stats.meshes` gains the submesh names in order. `stats.textures` grows by the texture entries of all records. |
| Exporter.WriteShaders | addons/io_scene_xml3d/export_asset.py:235-246 | The shader loop produces the shader elements in registry order, counts one material per record and counts their textures. |
| Exporter.WriteShader | addons/io_scene_xml3d/export_asset.py:236-246 | One shader element has `id`, `script` and, only when present, `compute`, with its rendered parameters. One material is counted. |
| Exporter.WriteAssetData | addons/io_scene_xml3d/export_asset.py:248-254 | The data loop produces the `assetdata` elements in data insertion order. |
| Exporter.WriteAssetMeshes | addons/io_scene_xml3d/export_asset.py:256-265 | The submesh loop produces the `assetmesh` elements in list order and appends their names to `stats.meshes`. |
| Exporter.WriteMesh | addons/io_scene_xml3d/export_asset.py:257-265 | One `assetmesh` element has `name`, `includes` and `shader`, with its rendered index entry. Its name is appended to `stats.meshes`. |
| Exporter.WriteEntries | addons/io_scene_xml3d/export_asset.py:243-245 | The parameters render in order. The texture count grows by the number of texture entries. |
| Exporter.VertexArrays | addons/io_scene_xml3d/export_asset.py:189-204 | The array loop builds exactly `MeshArrays`: positions from the mesh vertices, normals, and texcoords only when the first vertex has one. |

## Left out

- `addMesh` (lines 97-113) is not modelled. It obtains meshes from Blender (`obj.to_mesh`, object types, a bare `except`). Meshes are plain input values, and a face's material index is required to be below `max(1, materialCount)`.
- `save` (lines 301-316) is left out because it is file I/O: opening the file, `os.path.getsize` and the deferred texture copy with its `PermissionError` handling. `copy_report` only prints.
- Texture source resolution (lines 75-87) is left out: `path_reference`, base64 of packed images and the separator rewrite are foreign calls and byte encoding. A slot's resolved URI is the opaque input `imageSrc`.
- `writexml` (line 267) is not modelled. The model stops at the element tree and does not render bytes.
- The exact decimal output of `"%.6f"` and of `str(float)` is not modelled. Both are opaque functions in `Format`. Only the token layout around them is proved.
- Warnings printed for skipped textures and for meshes without faces are not modelled, because they are console output only.
- `Welder.Triangulate`: a face with neither 3 nor 4 corners contributes no indices. The source's branch at line 170 refers to the undefined name `newFaceVertices` and would raise `NameError` there.
- `Welder.AppendUnique` returns the updated map instead of mutating the caller's dict. The welder method threads that map through its loop, so the effect is the same.
- Host floats are exact reals. Welding compares them exactly, and NaN, the infinities and `-0.0` are not represented, so keys that differ only in those ways are not modelled.
- The `0.0001` diffuse-factor threshold is compared as an exact real, not as a binary float.
- A slot's texture and image are assumed present once the slot is. The source would fail with an attribute error on a missing texture or image.
- `Vertex` and `Stats` come from `.tools`, which is not part of this model. `Vertex` is a value with structural equality. `Stats` keeps only the `materials`, `meshes` and `textures` counters; `assets` belongs to `save`.
- The `_path`, `_scene` and `_copy_set` fields are left out because they serve only `addMesh`, path resolution and `save`.
- The minidom document is modelled as an immutable element tree built bottom-up. In-place `appendChild` mutation and node identity are not modelled.
- `blender-xflow.js` is not part of this model. It contains the Xflow operators, which are float arithmetic in a library this model cannot see.
