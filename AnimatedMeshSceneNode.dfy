// The scene node that plays an animated mesh (CAnimatedMeshSceneNode): the
// materials it copies from frame 0 of the mesh, the frame loop it plays,
// the frame it asks the mesh for when rendering, and its material lookup.
//
// The mesh is seen through what the node reads of it: its frame count and
// the materials of the buffers of frame 0.  The timer is a parameter, and
// so is the elapsed-frame count of `render`, which the source computes in
// floating point.
module AnimatedMeshSceneNode {
  import opened Common
  import opened SceneMaterial

  /** What the node reads of an IAnimatedMesh: getFrameCount(), and the
      buffers of getMesh(0, 0), each a material or None for a null buffer;
      Frame0 is None when getMesh(0, 0) returns null. */
  datatype MeshView = MeshView(FrameCount: int, Frame0: Option<seq<Option<Material>>>)

  /** The material of the last non-null buffer, or `initial` when there is
      none. */
  function LastMaterial(buffers: seq<Option<Material>>, initial: Material): Material
    decreases |buffers|
  {
    if buffers == [] then initial
    else if buffers[|buffers| - 1].Some? then buffers[|buffers| - 1].value
    else LastMaterial(buffers[..|buffers| - 1], initial)
  }

  /** The materials the constructor collects: for each buffer, the material
      of the last non-null buffer up to and including it. */
  function Collected(buffers: seq<Option<Material>>, initial: Material): (r: seq<Material>)
    ensures |r| == |buffers|
    decreases |buffers|
  {
    if buffers == [] then []
    else Collected(buffers[..|buffers| - 1], initial) + [LastMaterial(buffers, initial)]
  }

  /** One material per buffer: a non-null buffer gives its own material, a
      null buffer repeats the material before it, and a null first buffer
      gives the default-constructed material. */
  lemma {:induction false} CollectedRepeats(buffers: seq<Option<Material>>, initial: Material, i: int)
    requires 0 <= i < |buffers|
    ensures buffers[i].Some? ==> Collected(buffers, initial)[i] == buffers[i].value
    ensures buffers[i].None? && i == 0 ==> Collected(buffers, initial)[i] == initial
    ensures buffers[i].None? && i > 0 ==> Collected(buffers, initial)[i] == Collected(buffers, initial)[i - 1]
    decreases |buffers|
  {
    var n := |buffers|;
    var front := buffers[..n - 1];
    if i < n - 1 {
      assert front[i] == buffers[i];
      CollectedRepeats(front, initial, i);
      assert Collected(buffers, initial)[i] == Collected(front, initial)[i];
      if i > 0 {
        assert Collected(buffers, initial)[i - 1] == Collected(front, initial)[i - 1];
      }
    } else if buffers[i].None? {
      assert Collected(buffers, initial)[i] == LastMaterial(front, initial);
      if i > 0 {
        assert Collected(buffers, initial)[i - 1] == Collected(front, initial)[i - 1];
        CollectedEndsWithLast(front, initial);
      }
    }
  }

  /** The last collected material is the last non-null buffer's. */
  lemma CollectedEndsWithLast(buffers: seq<Option<Material>>, initial: Material)
    requires buffers != []
    ensures Collected(buffers, initial)[|buffers| - 1] == LastMaterial(buffers, initial)
  {
  }

  /** The constructor's loop over the buffers of frame 0: `mat` starts as
      the default material and is replaced by each non-null buffer's. */
  method CollectMaterials(buffers: seq<Option<Material>>, initial: Material) returns (materials: seq<Material>)
    ensures materials == Collected(buffers, initial)
  {
    var mat := initial;
    materials := [];
    var i := 0;
    while i < |buffers|
      invariant 0 <= i <= |buffers|
      invariant materials == Collected(buffers[..i], initial)
      invariant mat == LastMaterial(buffers[..i], initial)
    {
      if buffers[i].Some? {
        mat := buffers[i].value;
      }
      assert buffers[..i + 1][..i] == buffers[..i];
      materials := materials + [mat];
      i := i + 1;
    }
    assert buffers[..i] == buffers;
  }

  /** The checks of setFrameLoop on the s32 arguments: a loop inside the
      mesh's frames whose length is positive also as an s32. */
  predicate AcceptsLoop(frameCount: int, begin: int, end: int)
  {
    begin < end && begin < frameCount && end < frameCount && S32(end - begin) > 0
  }

  /** An accepted loop has a length that fits an s32, so the modulus of the
      frame formula is positive and computed without wrap-around; the s32
      test rejects the loops whose length wraps to a negative value. */
  lemma AcceptedLoopFits(frameCount: int, begin: int, end: int)
    requires IsS32(begin) && IsS32(end)
    ensures AcceptsLoop(frameCount, begin, end) ==> 0 < end - begin <= S32Max
    ensures begin < end && S32Max < end - begin ==> !AcceptsLoop(frameCount, begin, end)
  {
    if begin < end && S32Max < end - begin {
      assert S32(end - begin) == end - begin - Word;
    }
  }

  /** The frame render asks the mesh for: the start of the loop plus the
      elapsed-frame count modulo the loop length, with C's remainder. */
  function LoopFrame(start: int, end: int, count: int): (f: int)
    requires start != end
  {
    start + CRem(count, end - start)
  }

  /** For a non-negative count and a proper loop the frame lies in the loop,
      and it advances by one with the count until it wraps to the start. */
  lemma LoopFrameInLoop(start: int, end: int, count: int)
    requires start < end && count >= 0
    ensures start <= LoopFrame(start, end, count) < end
    ensures LoopFrame(start, end, count + 1) ==
            if LoopFrame(start, end, count) + 1 == end then start else LoopFrame(start, end, count) + 1
  {
    ModNext(count, end - start);
  }

  /** Counting on by one moves the remainder on by one, from n - 1 back to 0. */
  lemma ModNext(c: int, n: int)
    requires c >= 0 && n > 0
    ensures (c + 1) % n == if c % n + 1 == n then 0 else c % n + 1
  {
    var q, r := c / n, c % n;
    assert c == q * n + r;
    if r + 1 == n {
      RemainderOf(c + 1, n, q + 1, 0);
    } else {
      RemainderOf(c + 1, n, q, r + 1);
    }
  }

  /** A negative count, which the timer's wrap-around can produce, gives a
      frame before the start of the loop unless the remainder is 0. */
  lemma LoopFrameNegative(start: int, end: int, count: int)
    requires start < end && count < 0 && CRem(count, end - start) != 0
    ensures LoopFrame(start, end, count) < start
  {
  }

  class Node {
    /** The mesh, None for a node made without one. */
    const Mesh: Option<MeshView>
    var Materials: seq<Material>
    var BeginFrameTime: int
    var StartFrame: int
    var EndFrame: int
    var FramesPerSecond: int

    /** The frame fields are s32 values and the loop length fits an s32. */
    ghost predicate Valid()
      reads this
    {
      IsS32(StartFrame) && IsS32(EndFrame) && IsS32(EndFrame - StartFrame)
    }

    /** The constructor: without a mesh the frames stay 0 and there are no
        materials; with one, the loop is the whole mesh, and the materials
        are collected from frame 0 when the mesh has a frame 0. */
    constructor (mesh: Option<MeshView>, now: int, initial: Material)
      requires mesh.Some? ==> IsS32(mesh.value.FrameCount)
      ensures Valid()
      ensures Mesh == mesh && BeginFrameTime == now && FramesPerSecond == 100
      ensures StartFrame == 0 && EndFrame == (if mesh.Some? then mesh.value.FrameCount else 0)
      ensures Materials == (if mesh.Some? && mesh.value.Frame0.Some? then Collected(mesh.value.Frame0.value, initial) else [])
    {
      Mesh := mesh;
      BeginFrameTime := now;
      FramesPerSecond := 100;
      StartFrame := 0;
      var materials := [];
      var end := 0;
      if mesh.Some? {
        if mesh.value.Frame0.Some? {
          materials := CollectMaterials(mesh.value.Frame0.value, initial);
        }
        end := mesh.value.FrameCount;
      }
      Materials := materials;
      EndFrame := end;
    }

    /** setFrameLoop: false without a mesh or for a loop the checks refuse,
        and then nothing changes; otherwise the loop becomes [begin, end)
        and restarts now. */
    method SetFrameLoop(begin: int, end: int, now: int) returns (ok: bool)
      requires Valid() && IsS32(begin) && IsS32(end)
      modifies this
      ensures Valid()
      ensures ok <==> Mesh.Some? && AcceptsLoop(Mesh.value.FrameCount, begin, end)
      ensures ok ==> StartFrame == begin && EndFrame == end && BeginFrameTime == now
      ensures !ok ==> StartFrame == old(StartFrame) && EndFrame == old(EndFrame) && BeginFrameTime == old(BeginFrameTime)
      ensures Materials == old(Materials) && FramesPerSecond == old(FramesPerSecond)
    {
      if Mesh.None? {
        return false;
      }
      var frameCount := Mesh.value.FrameCount;
      if !(begin < end && begin < frameCount && end < frameCount && S32(end - begin) > 0) {
        return false;
      }
      AcceptedLoopFits(frameCount, begin, end);
      StartFrame := begin;
      EndFrame := end;
      BeginFrameTime := now;
      return true;
    }

    /** The frame render asks the mesh for, given the elapsed-frame count;
        None when render returns early for want of a mesh or a driver.  The
        source divides by the loop length, so that must not be 0. */
    function RenderFrame(hasDriver: bool, count: int): (f: Option<int>)
      requires Valid()
      requires Mesh.Some? && hasDriver ==> StartFrame != EndFrame
      reads this
      ensures f.Some? <==> Mesh.Some? && hasDriver
      ensures f.Some? && StartFrame < EndFrame && count >= 0 ==> StartFrame <= f.value < EndFrame
    {
      if Mesh.None? || !hasDriver then None
      else Some(LoopFrame(StartFrame, EndFrame, count))
    }

    /** getMaterial: None stands for the base class's material, which an
        index outside the list falls back to. */
    function GetMaterial(i: int): (m: Option<Material>)
      reads this
      ensures m.Some? <==> 0 <= i < GetMaterialCount()
      ensures m.Some? ==> m.value == Materials[i]
    {
      if i < 0 || i >= |Materials| then None else Some(Materials[i])
    }

    /** getMaterialCount: one material per buffer of frame 0. */
    function GetMaterialCount(): (n: int)
      reads this
      ensures n == |Materials|
    {
      |Materials|
    }
  }
}
