/** Data model of the XML3D asset exporter: the host records it reads (meshes,
    faces, materials, texture slots), the welding key, the typed content
    entries it stores, and the element tree it writes. */
module Types {

  datatype Option<T> = None | Some(value: T)

  /** A float triple as the host hands it over (position, normal, colour).
      Floats are kept exact: the exporter only compares and formats them. */
  datatype Vec3 = Vec3(x: real, y: real, z: real)

  /** One UV coordinate of the first UV layer. */
  datatype UV = UV(u: real, v: real)

  /** `tuple(v)` of a host vector: its components in order. */
  function Vec3Tuple(v: Vec3): seq<real> { [v.x, v.y, v.z] }

  function UVTuple(t: UV): seq<real> { [t.u, t.v] }

  /** The welding key `Vertex(index, normal, uv)`: two corners weld into one
      vertex exactly when all three fields are equal. */
  datatype Vertex = Vertex(index: nat, normal: Vec3, texcoord: Option<UV>)

  /** A host mesh vertex: `co` and `normal`. */
  datatype MeshVertex = MeshVertex(co: Vec3, normal: Vec3)

  /** A tessellated face: corner vertex indices in winding order, the face
      normal, the smooth flag, the first UV layer's corner coordinates and the
      material slot. */
  datatype Face = Face(vertices: seq<nat>, normal: Vec3, smooth: bool, uvs: seq<UV>, materialIndex: nat)

  /** A texture slot; `imageSrc` is the URI the texture resolver produced. */
  datatype TextureSlot = TextureSlot(
    name: string,
    useMapColorDiffuse: bool,
    diffuseColorFactor: real,
    textureCoords: string,
    textureType: string,
    imageSource: string,
    imageSrc: string)

  /** A slot position of a material: its `use_textures` flag and its slot, if any. */
  datatype SlotEntry = SlotEntry(enabled: bool, slot: Option<TextureSlot>)

  datatype Material = Material(
    name: string,
    diffuseIntensity: real,
    diffuseColor: Vec3,
    specularIntensity: real,
    specularColor: Vec3,
    specularHardness: int,
    ambient: real,
    textureSlots: seq<SlotEntry>)

  /** A host mesh; `materials` may hold empty slots, `hasUV` says whether the
      mesh has at least one tessface UV layer. */
  datatype Mesh = Mesh(
    name: string,
    vertices: seq<MeshVertex>,
    faces: seq<Face>,
    materials: seq<Option<Material>>,
    hasUV: bool)

  /** Number of per-material index lists: one per material, or one default list. */
  function SlotCount(mesh: Mesh): nat
  {
    if |mesh.materials| == 0 then 1 else |mesh.materials|
  }

  /** What the host guarantees about a face of `mesh`. */
  predicate FaceOk(mesh: Mesh, face: Face)
  {
    (forall i :: 0 <= i < |face.vertices| ==> face.vertices[i] < |mesh.vertices|) &&
    (mesh.hasUV ==> |face.uvs| == |face.vertices|) &&
    face.materialIndex < SlotCount(mesh)
  }

  predicate MeshOk(mesh: Mesh)
  {
    forall f :: 0 <= f < |mesh.faces| ==> FaceOk(mesh, mesh.faces[f])
  }

  predicate NoDup<T(==)>(s: seq<T>)
  {
    forall i, j :: 0 <= i < j < |s| ==> s[i] != s[j]
  }

  /** The content types the writer knows; `Tag` is the element name. */
  datatype Kind = Float | Float2 | Float3 | Int | Texture

  function Tag(k: Kind): string
  {
    match k
    case Float => "float"
    case Float2 => "float2"
    case Float3 => "float3"
    case Int => "int"
    case Texture => "texture"
  }

  /** The Python values stored under "value": a string, a float, an int, a
      list of float tuples, or a list of ints. */
  datatype Value =
    | Text(s: string)
    | Scalar(x: real)
    | Whole(n: int)
    | Tuples(ts: seq<seq<real>>)
    | Ints(xs: seq<int>)

  /** A typed content entry `{"type", "name", "value"}`. */
  datatype Entry = Entry(kind: Kind, name: string, value: Value)

  /** Every entry the exporter builds: int lists exactly under "int", a URI
      string under "texture". */
  predicate WellTyped(e: Entry)
  {
    (e.kind == Int <==> e.value.Ints?) &&
    (e.kind == Texture ==> e.value.Text?)
  }

  /** The document as an element tree: attributes keep insertion order. */
  datatype Node =
    | Element(tag: string, attrs: seq<(string, string)>, children: seq<Node>)
    | TextNode(text: string)
}
