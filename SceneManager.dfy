// The scene manager (CSceneManager): the three render lists nodes register
// into every frame, the order drawAll renders them in, the active camera,
// the nodes the add* functions attach, and the cache of loaded meshes.
//
// What the manager calls but does not own is a parameter: the registrations
// the nodes make from OnPreRender, the active camera's absolute position,
// whether the file system opens a file and whether each loader's loadFile
// succeeds on it.  A node's render() is recorded as its appearance in the
// frame's render pass.
module SceneManager {
  import opened Common
  import opened SceneMaterial
  import opened SceneManagerEntries

  datatype RenderTime = LightAndCamera | DefaultTime

  /** A call registerNodeForRendering(node, time) made from OnPreRender. */
  datatype Registration = Registration(Node: SceneNode, Time: RenderTime)

  /** What drawAll rendered in one frame, in render order: the lights and
      cameras, then the default list, then the transparent list. */
  datatype Pass = Pass(Lights: seq<SceneNode>, Defaults: seq<DefaultNodeEntry>, Transparents: seq<TransparentNodeEntry>)

  function RenderOrder(p: Pass): (r: seq<SceneNode>)
    ensures |r| == |p.Lights| + |p.Defaults| + |p.Transparents|
  {
    p.Lights + seq(|p.Defaults|, i requires 0 <= i < |p.Defaults| => p.Defaults[i].Node)
             + seq(|p.Transparents|, i requires 0 <= i < |p.Transparents| => p.Transparents[i].Node)
  }

  /** A pass renders these lists: the lights and cameras in registration
      order, and the default and transparent entries each as a sorted
      permutation of their list.  The engine's array sort is not part of
      this model, so the order of entries with equal keys is left open. */
  predicate Renders(p: Pass, lights: seq<SceneNode>, defaults: seq<DefaultNodeEntry>, transparents: seq<TransparentNodeEntry>)
  {
    p.Lights == lights &&
    multiset(p.Defaults) == multiset(defaults) && SortedBy(p.Defaults, DefaultKey) &&
    multiset(p.Transparents) == multiset(transparents) && SortedBy(p.Transparents, TransparentKey)
  }

  /** Some material of the node is transparent. */
  predicate HasTransparentMaterial(n: SceneNode)
  {
    exists i | 0 <= i < |n.Materials| :: IsTransparent(n.Materials[i])
  }

  /** The entries a sequence of registrations adds to each list, the
      transparent ones measured from `camera`. */
  function LightsOf(regs: seq<Registration>): seq<SceneNode>
  {
    if regs == [] then []
    else
      var last := regs[|regs| - 1];
      LightsOf(regs[..|regs| - 1]) + (if last.Time == LightAndCamera then [last.Node] else [])
  }

  function DefaultsOf(regs: seq<Registration>): seq<DefaultNodeEntry>
  {
    if regs == [] then []
    else
      var last := regs[|regs| - 1];
      DefaultsOf(regs[..|regs| - 1]) +
        (if last.Time == DefaultTime && !HasTransparentMaterial(last.Node) then [MakeDefaultEntry(last.Node)] else [])
  }

  function TransparentsOf(regs: seq<Registration>, camera: Vec3): seq<TransparentNodeEntry>
  {
    if regs == [] then []
    else
      var last := regs[|regs| - 1];
      TransparentsOf(regs[..|regs| - 1], camera) +
        (if last.Time == DefaultTime && HasTransparentMaterial(last.Node) then [MakeTransparentEntry(last.Node, camera)] else [])
  }

  /** Every registration lands in exactly one list. */
  lemma {:induction false} EachRegistrationOnce(regs: seq<Registration>, camera: Vec3)
    ensures |LightsOf(regs)| + |DefaultsOf(regs)| + |TransparentsOf(regs, camera)| == |regs|
  {
    if regs != [] {
      EachRegistrationOnce(regs[..|regs| - 1], camera);
    }
  }

  /** A node with a transparent material never enters the default list,
      and one without never enters the transparent list. */
  lemma {:induction false} ListsSeparate(regs: seq<Registration>, camera: Vec3)
    ensures forall e | e in DefaultsOf(regs) :: !HasTransparentMaterial(e.Node)
    ensures forall e | e in TransparentsOf(regs, camera) :: HasTransparentMaterial(e.Node) && e.Distance == DistanceSquared(e.Node.Position, camera)
  {
    if regs != [] {
      ListsSeparate(regs[..|regs| - 1], camera);
    }
  }

  predicate OccursAt(s: string, sub: string, i: int)
  {
    0 <= i && i + |sub| <= |s| && s[i..i + |sub|] == sub
  }

  /** strstr(s, sub) != 0. */
  predicate Contains(s: string, sub: string)
  {
    exists i | 0 <= i <= |s| - |sub| :: OccursAt(s, sub, i)
  }

  function Extension(k: LoaderKind): string
  {
    match k
    case Md2 => ".md2"
    case Obj => ".obj"
    case Ms3d => ".ms3d"
    case Bsp => ".bsp"
  }

  /** The order getMesh tries the loaders in. */
  const LoaderOrder: seq<LoaderKind> := [Md2, Obj, Ms3d, Bsp]

  /** Whether each loader's loadFile succeeds on the opened file. */
  datatype LoadResults = LoadResults(Md2Loads: bool, ObjLoads: bool, Ms3dLoads: bool, BspLoads: bool)

  function Loads(results: LoadResults, k: LoaderKind): bool
  {
    match k
    case Md2 => results.Md2Loads
    case Obj => results.ObjLoads
    case Ms3d => results.Ms3dLoads
    case Bsp => results.BspLoads
  }

  /** A loader loads the file when the file name holds its extension and its
      loadFile succeeds. */
  predicate LoadsFile(filename: string, results: LoadResults, k: LoaderKind)
  {
    Contains(filename, Extension(k)) && Loads(results, k)
  }

  /** The first loader of `order` that loads the file. */
  function FirstLoader(order: seq<LoaderKind>, filename: string, results: LoadResults): (r: Option<nat>)
    ensures r.Some? ==> r.value < |order| && LoadsFile(filename, results, order[r.value])
    ensures r.Some? ==> forall i | 0 <= i < r.value :: !LoadsFile(filename, results, order[i])
    ensures r.None? ==> forall i | 0 <= i < |order| :: !LoadsFile(filename, results, order[i])
  {
    if order == [] then None
    else if LoadsFile(filename, results, order[0]) then Some(0)
    else
      var rest := FirstLoader(order[1..], filename, results);
      if rest.Some? then Some(rest.value + 1) else None
  }

  /** The four tries of getMesh, one after the other. */
  lemma FirstLoaderInOrder(filename: string, results: LoadResults)
    ensures FirstLoader(LoaderOrder, filename, results) ==
      if LoadsFile(filename, results, Md2) then Some(0)
      else if LoadsFile(filename, results, Obj) then Some(1)
      else if LoadsFile(filename, results, Ms3d) then Some(2)
      else if LoadsFile(filename, results, Bsp) then Some(3)
      else None
  {
    assert LoaderOrder[0] == Md2 && LoaderOrder[1] == Obj && LoaderOrder[2] == Ms3d && LoaderOrder[3] == Bsp;
    var r := FirstLoader(LoaderOrder, filename, results);
    if r.Some? {
      assert r.value == 0 || r.value == 1 || r.value == 2 || r.value == 3;
    }
  }

  /** The cache lookup: the first entry with the name. */
  function FindMesh(meshes: seq<MeshEntry>, name: string): (r: Option<MeshRef>)
    ensures r.Some? <==> exists i | 0 <= i < |meshes| :: meshes[i].Name == name
    ensures r.Some? ==> exists i | 0 <= i < |meshes| :: meshes[i].Name == name && meshes[i].Mesh == r.value
  {
    if meshes == [] then None
    else if meshes[0].Name == name then Some(meshes[0].Mesh)
    else
      var r := FindMesh(meshes[1..], name);
      assert forall i | 1 <= i < |meshes| :: meshes[i] == meshes[1..][i - 1];
      r
  }

  /** A mesh added under a new name is what the cache then returns for it. */
  lemma {:induction false} FindAfterAdd(meshes: seq<MeshEntry>, e: MeshEntry, name: string)
    ensures FindMesh(meshes + [e], name) ==
            if FindMesh(meshes, name).Some? then FindMesh(meshes, name)
            else if e.Name == name then Some(e.Mesh) else None
  {
    if meshes != [] && meshes[0].Name != name {
      assert (meshes + [e])[1..] == meshes[1..] + [e];
      FindAfterAdd(meshes[1..], e, name);
    }
  }

  /** A node the add* functions attached: what it is and its parent, None
      standing for the scene manager itself. */
  datatype NodeKind = MeshNode(Mesh: int) | AnimatedMeshNode(Mesh: int) | BspTreeNode(Mesh: int) | OctTreeNode(Mesh: int)
                    | CameraNode | CameraMayaNode | LightNode | BillboardNode | TestNode
  datatype MeshNodeKind = StaticMesh | AnimatedMesh | BspTree | OctTree
  datatype Attached = Attached(Kind: NodeKind, Parent: Option<int>)

  function MeshNodeOf(kind: MeshNodeKind, mesh: int): NodeKind
  {
    match kind
    case StaticMesh => MeshNode(mesh)
    case AnimatedMesh => AnimatedMeshNode(mesh)
    case BspTree => BspTreeNode(mesh)
    case OctTree => OctTreeNode(mesh)
  }

  class Manager {
    const HasDriver: bool
    var Meshes: seq<MeshEntry>
    var Nodes: seq<Attached>
    var LightAndCameraList: seq<SceneNode>
    var DefaultNodeList: seq<DefaultNodeEntry>
    var TransparentNodeList: seq<TransparentNodeEntry>
    /** The active camera, as an index into Nodes. */
    var ActiveCamera: Option<int>
    var CamTransPos: Vec3
    /** The render passes of the frames drawn so far. */
    var Passes: seq<Pass>

    constructor (hasDriver: bool)
      ensures HasDriver == hasDriver && ActiveCamera.None? && CamTransPos == Origin
      ensures Meshes == [] && Nodes == [] && Passes == []
      ensures LightAndCameraList == [] && DefaultNodeList == [] && TransparentNodeList == []
    {
      HasDriver := hasDriver;
      Meshes, Nodes, Passes := [], [], [];
      LightAndCameraList, DefaultNodeList, TransparentNodeList := [], [], [];
      ActiveCamera := None;
      CamTransPos := Origin;
    }

    /** The loop of registerNodeForRendering over the node's materials. */
    static method FindTransparent(n: SceneNode) returns (found: bool)
      ensures found <==> HasTransparentMaterial(n)
    {
      var count := |n.Materials|;
      for i := 0 to count
        invariant forall m | 0 <= m < i :: !IsTransparent(n.Materials[m])
      {
        if IsTransparent(n.Materials[i]) {
          return true;
        }
      }
      return false;
    }

    /** registerNodeForRendering: a light or camera goes to its list; a
        default node goes to the transparent list, measured from the camera
        position of the frame, when one of its materials is transparent, and
        to the default list otherwise. */
    method RegisterNodeForRendering(node: SceneNode, time: RenderTime)
      modifies this
      ensures LightAndCameraList == old(LightAndCameraList) + LightsOf([Registration(node, time)])
      ensures DefaultNodeList == old(DefaultNodeList) + DefaultsOf([Registration(node, time)])
      ensures TransparentNodeList == old(TransparentNodeList) + TransparentsOf([Registration(node, time)], CamTransPos)
      ensures Meshes == old(Meshes) && Nodes == old(Nodes) && ActiveCamera == old(ActiveCamera)
      ensures CamTransPos == old(CamTransPos) && Passes == old(Passes)
    {
      var r := [Registration(node, time)];
      assert r[..0] == [];
      match time
      case LightAndCamera =>
        LightAndCameraList := LightAndCameraList + [node];
      case DefaultTime =>
        var transparent := FindTransparent(node);
        if transparent {
          TransparentNodeList := TransparentNodeList + [MakeTransparentEntry(node, CamTransPos)];
          return;
        }
        DefaultNodeList := DefaultNodeList + [MakeDefaultEntry(node)];
    }

    /** drawAll: nothing without a driver.  Otherwise the camera position is
        the active camera's, or the origin, before the nodes register; then
        the frame renders the lights and cameras in registration order, the
        default list sorted by texture and the transparent list sorted
        nearest first, and every list is empty afterwards. */
    method DrawAll(cameraPosition: Vec3, regs: seq<Registration>)
      modifies this
      ensures !HasDriver ==> (Passes == old(Passes) && CamTransPos == old(CamTransPos) &&
        LightAndCameraList == old(LightAndCameraList) && DefaultNodeList == old(DefaultNodeList) &&
        TransparentNodeList == old(TransparentNodeList))
      ensures HasDriver ==> CamTransPos == (if ActiveCamera.Some? then cameraPosition else Origin)
      ensures HasDriver ==> |Passes| == |old(Passes)| + 1 && Passes[..|old(Passes)|] == old(Passes)
      ensures HasDriver ==>
        |Passes| == |old(Passes)| + 1 &&
        Renders(Passes[|old(Passes)|], old(LightAndCameraList) + LightsOf(regs),
                old(DefaultNodeList) + DefaultsOf(regs), old(TransparentNodeList) + TransparentsOf(regs, CamTransPos))
      ensures HasDriver ==> LightAndCameraList == [] && DefaultNodeList == [] && TransparentNodeList == []
      ensures Meshes == old(Meshes) && Nodes == old(Nodes) && ActiveCamera == old(ActiveCamera)
    {
      if !HasDriver {
        return;
      }
      CamTransPos := if ActiveCamera.Some? then cameraPosition else Origin;
      RegisterAll(regs);
      RenderLists();
    }

    /** The three passes of drawAll: each list is rendered, the default and
        transparent lists after sorting, and then cleared. */
    method RenderLists()
      modifies this
      ensures |Passes| == |old(Passes)| + 1 && Passes[..|old(Passes)|] == old(Passes)
      ensures Renders(Passes[|old(Passes)|], old(LightAndCameraList), old(DefaultNodeList), old(TransparentNodeList))
      ensures LightAndCameraList == [] && DefaultNodeList == [] && TransparentNodeList == []
      ensures Meshes == old(Meshes) && Nodes == old(Nodes) && ActiveCamera == old(ActiveCamera) && CamTransPos == old(CamTransPos)
    {
      var lights := LightAndCameraList;
      LightAndCameraList := [];
      var defaults := SortByKey(DefaultNodeList, DefaultKey);
      DefaultNodeList := [];
      var transparents := SortByKey(TransparentNodeList, TransparentKey);
      TransparentNodeList := [];
      Passes := Passes + [Pass(lights, defaults, transparents)];
    }

    /** OnPreRender: the nodes register one after the other. */
    method RegisterAll(regs: seq<Registration>)
      modifies this
      ensures LightAndCameraList == old(LightAndCameraList) + LightsOf(regs)
      ensures DefaultNodeList == old(DefaultNodeList) + DefaultsOf(regs)
      ensures TransparentNodeList == old(TransparentNodeList) + TransparentsOf(regs, CamTransPos)
      ensures Meshes == old(Meshes) && Nodes == old(Nodes) && ActiveCamera == old(ActiveCamera)
      ensures CamTransPos == old(CamTransPos) && Passes == old(Passes)
    {
      for i := 0 to |regs|
        invariant LightAndCameraList == old(LightAndCameraList) + LightsOf(regs[..i])
        invariant DefaultNodeList == old(DefaultNodeList) + DefaultsOf(regs[..i])
        invariant TransparentNodeList == old(TransparentNodeList) + TransparentsOf(regs[..i], CamTransPos)
        invariant Meshes == old(Meshes) && Nodes == old(Nodes) && ActiveCamera == old(ActiveCamera)
        invariant CamTransPos == old(CamTransPos) && Passes == old(Passes)
      {
        RegisterNodeForRendering(regs[i].Node, regs[i].Time);
        assert regs[..i + 1][..i] == regs[..i];
      }
      assert regs[..|regs|] == regs;
    }

    /** addMesh: the entry is stored under the lower-cased name. */
    method AddMesh(filename: string, mesh: MeshRef)
      modifies this
      ensures Meshes == old(Meshes) + [MeshEntry(Lower(filename), mesh)]
      ensures Nodes == old(Nodes) && ActiveCamera == old(ActiveCamera) && Passes == old(Passes)
      ensures LightAndCameraList == old(LightAndCameraList) && DefaultNodeList == old(DefaultNodeList)
      ensures TransparentNodeList == old(TransparentNodeList) && CamTransPos == old(CamTransPos)
    {
      Meshes := Meshes + [MeshEntry(Lower(filename), mesh)];
    }

    /** getMesh: a mesh cached under the lower-cased name is returned as it
        is.  Otherwise, when the file opens, the loaders whose extension the
        name holds are tried in the order md2, obj, ms3d, bsp until one
        succeeds; its mesh, a new object `id`, is cached and returned.  When
        the file does not open or no loader succeeds the result is null and
        the cache is unchanged. */
    method GetMesh(filename: string, opens: bool, results: LoadResults, id: int) returns (r: Option<MeshRef>)
      modifies this
      ensures var cached := FindMesh(old(Meshes), Lower(filename));
        cached.Some? ==> r == cached && Meshes == old(Meshes)
      ensures var cached := FindMesh(old(Meshes), Lower(filename));
        var first := FirstLoader(LoaderOrder, filename, results);
        cached.None? ==>
          if opens && first.Some? then
            r == Some(MeshRef(LoaderOrder[first.value], id)) && Meshes == old(Meshes) + [MeshEntry(Lower(filename), r.value)]
          else
            r.None? && Meshes == old(Meshes)
      ensures Nodes == old(Nodes) && ActiveCamera == old(ActiveCamera) && Passes == old(Passes)
      ensures LightAndCameraList == old(LightAndCameraList) && DefaultNodeList == old(DefaultNodeList)
      ensures TransparentNodeList == old(TransparentNodeList) && CamTransPos == old(CamTransPos)
    {
      var name := Lower(filename);
      var msh := FindMesh(Meshes, name);
      if msh.Some? {
        return msh;
      }
      if !opens {
        return None;
      }
      FirstLoaderInOrder(filename, results);
      var success := false;
      if Contains(filename, ".md2") {
        success := results.Md2Loads;
        if success {
          msh := Some(MeshRef(Md2, id));
          AddMesh(filename, msh.value);
        }
      }
      if !success && Contains(filename, ".obj") {
        success := results.ObjLoads;
        if success {
          msh := Some(MeshRef(Obj, id));
          AddMesh(filename, msh.value);
        }
      }
      if !success && Contains(filename, ".ms3d") {
        success := results.Ms3dLoads;
        if success {
          msh := Some(MeshRef(Ms3d, id));
          AddMesh(filename, msh.value);
        }
      }
      if !success && Contains(filename, ".bsp") {
        success := results.BspLoads;
        if success {
          msh := Some(MeshRef(Bsp, id));
          AddMesh(filename, msh.value);
        }
      }
      return if success then msh else None;
    }

    /** addMeshSceneNode, addAnimatedMeshSceneNode, addBspTreeSceneNode and
        addOctTreeSceneNode: null and nothing attached without a mesh;
        otherwise a new node of the kind, under the given parent. */
    method AddMeshSceneNode(kind: MeshNodeKind, mesh: Option<int>, parent: Option<int>) returns (node: Option<int>)
      modifies this
      ensures mesh.None? ==> node.None? && Nodes == old(Nodes)
      ensures mesh.Some? ==> node == Some(|old(Nodes)|) && Nodes == old(Nodes) + [Attached(MeshNodeOf(kind, mesh.value), parent)]
      ensures Meshes == old(Meshes) && ActiveCamera == old(ActiveCamera) && Passes == old(Passes)
      ensures LightAndCameraList == old(LightAndCameraList) && DefaultNodeList == old(DefaultNodeList)
      ensures TransparentNodeList == old(TransparentNodeList) && CamTransPos == old(CamTransPos)
    {
      if mesh.None? {
        return None;
      }
      node := Some(|Nodes|);
      Nodes := Nodes + [Attached(MeshNodeOf(kind, mesh.value), parent)];
    }

    /** addCameraSceneNode and addCameraSceneNodeMaya: the new camera becomes
        the active one only when there is none yet. */
    method AddCameraSceneNode(maya: bool, parent: Option<int>) returns (node: int)
      modifies this
      ensures node == |old(Nodes)| && Nodes == old(Nodes) + [Attached(if maya then CameraMayaNode else CameraNode, parent)]
      ensures ActiveCamera == if old(ActiveCamera).None? then Some(node) else old(ActiveCamera)
      ensures Meshes == old(Meshes) && Passes == old(Passes)
      ensures LightAndCameraList == old(LightAndCameraList) && DefaultNodeList == old(DefaultNodeList)
      ensures TransparentNodeList == old(TransparentNodeList) && CamTransPos == old(CamTransPos)
    {
      node := |Nodes|;
      Nodes := Nodes + [Attached(if maya then CameraMayaNode else CameraNode, parent)];
      if ActiveCamera.None? {
        ActiveCamera := Some(node);
      }
    }

    /** addLightSceneNode, addBillboardSceneNode and addTestSceneNode always
        attach a new node. */
    method AddSceneNode(kind: NodeKind, parent: Option<int>) returns (node: int)
      requires kind == LightNode || kind == BillboardNode || kind == TestNode
      modifies this
      ensures node == |old(Nodes)| && Nodes == old(Nodes) + [Attached(kind, parent)]
      ensures Meshes == old(Meshes) && ActiveCamera == old(ActiveCamera) && Passes == old(Passes)
      ensures LightAndCameraList == old(LightAndCameraList) && DefaultNodeList == old(DefaultNodeList)
      ensures TransparentNodeList == old(TransparentNodeList) && CamTransPos == old(CamTransPos)
    {
      node := |Nodes|;
      Nodes := Nodes + [Attached(kind, parent)];
    }

    /** setActiveCamera overwrites the active camera unconditionally. */
    method SetActiveCamera(camera: Option<int>)
      modifies this
      ensures ActiveCamera == camera
      ensures Meshes == old(Meshes) && Nodes == old(Nodes) && Passes == old(Passes)
      ensures LightAndCameraList == old(LightAndCameraList) && DefaultNodeList == old(DefaultNodeList)
      ensures TransparentNodeList == old(TransparentNodeList) && CamTransPos == old(CamTransPos)
    {
      ActiveCamera := camera;
    }

    function GetActiveCamera(): (c: Option<int>)
      reads this
      ensures c == ActiveCamera
    {
      ActiveCamera
    }
  }

  /** In a rendered pass the default nodes come in nondecreasing texture
      key and the transparent nodes nearest first, every entry of the lists
      is rendered as often as it was listed, and the lights and cameras
      come first. */
  lemma PassOrdered(p: Pass, lights: seq<SceneNode>, defaults: seq<DefaultNodeEntry>, transparents: seq<TransparentNodeEntry>)
    requires Renders(p, lights, defaults, transparents)
    ensures forall i, j | 0 <= i < j < |p.Defaults| :: p.Defaults[i].TextureValue <= p.Defaults[j].TextureValue
    ensures forall i, j | 0 <= i < j < |p.Transparents| :: p.Transparents[i].Distance <= p.Transparents[j].Distance
    ensures |p.Defaults| == |defaults| && |p.Transparents| == |transparents|
    ensures RenderOrder(p)[..|lights|] == lights
  {
    assert SortedBy(p.Defaults, DefaultKey);
    assert SortedBy(p.Transparents, TransparentKey);
    assert |multiset(p.Defaults)| == |multiset(defaults)|;
    assert |multiset(p.Transparents)| == |multiset(transparents)|;
  }

  /** The sort drawAll uses delivers such a pass for any lists. */
  lemma PassExists(lights: seq<SceneNode>, defaults: seq<DefaultNodeEntry>, transparents: seq<TransparentNodeEntry>)
    ensures Renders(Pass(lights, SortByKey(defaults, DefaultKey), SortByKey(transparents, TransparentKey)),
                    lights, defaults, transparents)
  {
  }
}
