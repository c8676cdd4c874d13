/**
 * The triangle-range arithmetic of FUnrealNexusProxy::DrawEdgeNodes: which
 * selected nodes are drawn (loaded, on the edge of the cut when frustum
 * culling is on, inside the view frustum) and how the patches of such a
 * node whose child is not selected are merged into index-buffer ranges.
 */
module EdgeSlicing {
  import opened Wire
  import opened Records

  /** One mesh element: FirstIndex into the node's index buffer and NumPrimitives triangles. */
  datatype Range = Range(firstIndex: int, numPrimitives: int)

  /** A mesh handed to the collector: the node whose buffers it uses and its range. */
  datatype Mesh = Mesh(node: nat, range: Range)

  /** The value a uint32 triangle_offset takes once stored in the int Offset or EndIndex. */
  function AsInt32(x: U32): (r: int)
    ensures -0x8000_0000 <= r < 0x8000_0000
    ensures x < 0x8000_0000 ==> r == x
  {
    if x < 0x8000_0000 then x else x - 0x1_0000_0000
  }

  /** The int a uint32 is stored into is congruent to it modulo 2^32. */
  lemma AsInt32Wraps(x: U32)
    ensures (AsInt32(x) - x) % 0x1_0000_0000 == 0
  {
  }

  /** Where patch k's triangles end, as the slicing loop sees it. */
  function Off(patches: seq<Patch>, k: nat): int
    requires k < |patches|
  {
    AsInt32(patches[k].triangleOffset)
  }

  /** Where patch k's triangles begin: the end of patch k - 1, 0 for the first patch. */
  function Start(patches: seq<Patch>, k: nat): int
    requires k <= |patches|
  {
    if k == 0 then 0 else Off(patches, k - 1)
  }

  /** The patch offsets as the file lays them out: non-negative and ascending. */
  predicate Ascending(patches: seq<Patch>)
  {
    (|patches| > 0 ==> 0 <= Off(patches, 0)) &&
    forall a, b :: 0 <= a <= b < |patches| ==> Off(patches, a) <= Off(patches, b)
  }

  /** First and one-past-last triangle of a range. */
  function Lo(r: Range): int
  {
    r.firstIndex / 3
  }

  function Hi(r: Range): int
  {
    Lo(r) + r.numPrimitives
  }

  /** Triangle t lies in one of the ranges. */
  ghost predicate Covered(rs: seq<Range>, t: int)
  {
    exists r :: r in rs && Lo(r) <= t < Hi(r)
  }

  /** Triangle t belongs to a patch at index j or later whose child is not selected. */
  ghost predicate PatchCovered(patches: seq<Patch>, selected: set<nat>, j: nat, t: int)
  {
    exists i :: j <= i < |patches| && patches[i].node !in selected && Start(patches, i) <= t < Off(patches, i)
  }

  /** Each range ends where (or before) the next begins. */
  ghost predicate Ordered(rs: seq<Range>)
  {
    forall a, b :: 0 <= a < b < |rs| ==> Hi(rs[a]) <= Lo(rs[b])
  }

  /** A node is on the edge of the cut when one of its patches leads to an unselected child. */
  predicate IsEdge(patches: seq<Patch>, selected: set<nat>)
  {
    exists k :: 0 <= k < |patches| && patches[k].node !in selected
  }

  /**
   * The slicing loop from patch k on, with Offset and EndIndex as given: an
   * unselected child sets EndIndex and, unless it is the last patch, goes
   * on to the next patch; otherwise a range [Offset, EndIndex) is emitted
   * when it is not empty, and Offset moves to the patch's end.
   */
  function SliceFrom(patches: seq<Patch>, selected: set<nat>, k: nat, offset: int, endIndex: int): seq<Range>
    requires k <= |patches|
    decreases |patches| - k
  {
    if k == |patches| then []
    else
      var off := Off(patches, k);
      var unselected := patches[k].node !in selected;
      var e := if unselected then off else endIndex;
      if unselected && k < |patches| - 1 then SliceFrom(patches, selected, k + 1, offset, e)
      else
        (if e > offset then [Range(3 * offset, e - offset)] else []) + SliceFrom(patches, selected, k + 1, off, e)
  }

  /** The ranges DrawEdgeNodes emits for one node: the loop from the first patch with Offset = EndIndex = 0. */
  function EdgeRanges(patches: seq<Patch>, selected: set<nat>): seq<Range>
  {
    SliceFrom(patches, selected, 0, 0, 0)
  }

  /** Every emitted range is non-empty and starts on a triangle boundary of the index buffer. */
  lemma {:induction false} SliceWellFormed(patches: seq<Patch>, selected: set<nat>, k: nat, offset: int, endIndex: int)
    requires k <= |patches|
    ensures forall r :: r in SliceFrom(patches, selected, k, offset, endIndex) ==>
      r.numPrimitives > 0 && r.firstIndex % 3 == 0 && Lo(r) * 3 == r.firstIndex
    decreases |patches| - k
  {
    if k < |patches| {
      var off := Off(patches, k);
      var unselected := patches[k].node !in selected;
      var e := if unselected then off else endIndex;
      if unselected && k < |patches| - 1 {
        SliceWellFormed(patches, selected, k + 1, offset, e);
      } else {
        SliceWellFormed(patches, selected, k + 1, off, e);
      }
    }
  }

  /**
   * The loop state before patch k: Offset is the start of patch j, the
   * patches j .. k - 1 all have unselected children, and EndIndex is the end
   * of patch k - 1 when that run is not empty, at most Offset otherwise.
   * A run never reaches the last patch, which always flushes it.
   */
  ghost predicate SliceState(patches: seq<Patch>, selected: set<nat>, k: nat, offset: int, endIndex: int, j: nat)
  {
    j <= k <= |patches| && offset == Start(patches, j) &&
    (forall i :: j <= i < k ==> patches[i].node !in selected) &&
    (j == k ==> endIndex <= offset) &&
    (j < k ==> k < |patches| && endIndex == Off(patches, k - 1))
  }

  /** Under ascending offsets, the patches j .. k - 1 together cover exactly [Start(j), end of k - 1). */
  lemma {:induction false} RunUnion(patches: seq<Patch>, j: nat, k: nat, t: int)
    requires Ascending(patches) && j < k <= |patches|
    ensures (exists i :: j <= i < k && Start(patches, i) <= t < Off(patches, i)) <==>
      Start(patches, j) <= t < Off(patches, k - 1)
    decreases k - j
  {
    if k - 1 > j {
      RunUnion(patches, j, k - 1, t);
      if Start(patches, j) <= t < Off(patches, k - 1) && t >= Off(patches, k - 2) {
        assert Start(patches, k - 1) <= t < Off(patches, k - 1);
      }
      if exists i :: j <= i < k && Start(patches, i) <= t < Off(patches, i) {
        var i :| j <= i < k && Start(patches, i) <= t < Off(patches, i);
        if i > j {
          assert Off(patches, j) <= Off(patches, i - 1);
        }
        assert Off(patches, i) <= Off(patches, k - 1);
      }
    } else {
      assert Start(patches, k - 1) == Start(patches, j);
    }
  }

  /** One emitted range followed by later ones stays ordered. */
  lemma OrderedCons(head: seq<Range>, rest: seq<Range>, bound: int)
    requires |head| <= 1 && Ordered(rest)
    requires forall r :: r in head ==> Hi(r) <= bound
    requires forall r :: r in rest ==> bound <= Lo(r)
    ensures Ordered(head + rest)
  {
    var s := head + rest;
    forall a, b | 0 <= a < b < |s|
      ensures Hi(s[a]) <= Lo(s[b])
    {
      if a < |head| {
        assert s[a] in head && s[b] == rest[b - |head|];
        assert s[b] in rest;
      } else {
        assert s[a] == rest[a - |head|] && s[b] == rest[b - |head|];
      }
    }
  }

  /** Under ascending offsets the slicing loop emits ordered ranges, none before Offset. */
  lemma {:induction false} SliceOrdered(patches: seq<Patch>, selected: set<nat>, k: nat, offset: int, endIndex: int, j: nat)
    requires Ascending(patches) && SliceState(patches, selected, k, offset, endIndex, j)
    ensures Ordered(SliceFrom(patches, selected, k, offset, endIndex))
    ensures forall r :: r in SliceFrom(patches, selected, k, offset, endIndex) ==> offset <= Lo(r)
    decreases |patches| - k
  {
    if k < |patches| {
      var off := Off(patches, k);
      var unselected := patches[k].node !in selected;
      var e := if unselected then off else endIndex;
      assert offset <= off by {
        if j > 0 {
          assert Off(patches, j - 1) <= Off(patches, k);
        }
      }
      if unselected && k < |patches| - 1 {
        SliceOrdered(patches, selected, k + 1, offset, e, j);
      } else {
        if j < k {
          assert Off(patches, k - 1) <= Off(patches, k);
        }
        SliceOrdered(patches, selected, k + 1, off, e, k + 1);
        var head := if e > offset then [Range(3 * offset, e - offset)] else [];
        var rest := SliceFrom(patches, selected, k + 1, off, e);
        assert SliceFrom(patches, selected, k, offset, endIndex) == head + rest;
        assert forall r :: r in head ==> r == Range(3 * offset, e - offset) && Lo(r) == offset;
        OrderedCons(head, rest, off);
      }
    }
  }

  /**
   * Under ascending offsets the ranges still to come from the loop state
   * cover exactly the triangles of the unselected patches from j on.
   */
  lemma {:induction false} SliceCovers(patches: seq<Patch>, selected: set<nat>, k: nat, offset: int, endIndex: int,
                                       j: nat, t: int)
    requires Ascending(patches) && SliceState(patches, selected, k, offset, endIndex, j)
    ensures Covered(SliceFrom(patches, selected, k, offset, endIndex), t) <==> PatchCovered(patches, selected, j, t)
    decreases |patches| - k, 1
  {
    if k == |patches| {
      assert SliceFrom(patches, selected, k, offset, endIndex) == [];
    } else if patches[k].node !in selected && k < |patches| - 1 {
      ExtendCovers(patches, selected, k, offset, endIndex, j, t);
    } else {
      NextState(patches, selected, k, offset, endIndex, j);
      SliceCovers(patches, selected, k + 1, Off(patches, k),
                  if patches[k].node !in selected then Off(patches, k) else endIndex, k + 1, t);
      FlushCovers(patches, selected, k, offset, endIndex, j, t);
    }
  }

  /** The run-extending step of SliceCovers: an unselected patch that is not the last emits nothing. */
  lemma {:induction false} ExtendCovers(patches: seq<Patch>, selected: set<nat>, k: nat, offset: int, endIndex: int,
                                        j: nat, t: int)
    requires Ascending(patches) && SliceState(patches, selected, k, offset, endIndex, j)
    requires k < |patches| - 1 && patches[k].node !in selected
    ensures Covered(SliceFrom(patches, selected, k, offset, endIndex), t) <==> PatchCovered(patches, selected, j, t)
    decreases |patches| - k, 0
  {
    NextState(patches, selected, k, offset, endIndex, j);
    var rest := SliceFrom(patches, selected, k + 1, offset, Off(patches, k));
    SliceCovers(patches, selected, k + 1, offset, Off(patches, k), j, t);
    assert Covered(rest, t) <==> PatchCovered(patches, selected, j, t);
  }

  /**
   * One turn of the slicing loop keeps its state: an unselected patch that
   * is not the last extends the run (and emits nothing); any other patch
   * starts a new run at its end.
   */
  lemma NextState(patches: seq<Patch>, selected: set<nat>, k: nat, offset: int, endIndex: int, j: nat)
    requires Ascending(patches) && SliceState(patches, selected, k, offset, endIndex, j) && k < |patches|
    ensures patches[k].node !in selected && k < |patches| - 1 ==>
      SliceState(patches, selected, k + 1, offset, Off(patches, k), j) &&
      SliceFrom(patches, selected, k, offset, endIndex) == SliceFrom(patches, selected, k + 1, offset, Off(patches, k))
    ensures patches[k].node in selected || k == |patches| - 1 ==>
      SliceState(patches, selected, k + 1, Off(patches, k),
                 if patches[k].node !in selected then Off(patches, k) else endIndex, k + 1)
  {
    if k > 0 {
      assert Off(patches, k - 1) <= Off(patches, k);
    }
  }

  /**
   * The flush step of SliceCovers: given that the ranges after the flush at
   * patch k cover the unselected patches from k + 1 on, the ranges from k
   * cover those from j on.
   */
  lemma FlushCovers(patches: seq<Patch>, selected: set<nat>, k: nat, offset: int, endIndex: int, j: nat, t: int)
    requires Ascending(patches) && SliceState(patches, selected, k, offset, endIndex, j) && k < |patches|
    requires patches[k].node in selected || k == |patches| - 1
    requires Covered(SliceFrom(patches, selected, k + 1, Off(patches, k),
                               if patches[k].node !in selected then Off(patches, k) else endIndex), t)
             <==> PatchCovered(patches, selected, k + 1, t)
    ensures Covered(SliceFrom(patches, selected, k, offset, endIndex), t) <==> PatchCovered(patches, selected, j, t)
  {
    var off := Off(patches, k);
    var e := if patches[k].node !in selected then off else endIndex;
    var head := if e > offset then [Range(3 * offset, e - offset)] else [];
    var rest := SliceFrom(patches, selected, k + 1, off, e);
    assert SliceFrom(patches, selected, k, offset, endIndex) == head + rest;
    HeadCovers(offset, e, t);
    CoveredConcat(head, rest, t);
    RunCovers(patches, selected, k, offset, e, j, t);
  }

  /** The range a flush emits covers [offset, e). */
  lemma HeadCovers(offset: int, e: int, t: int)
    ensures Covered(if e > offset then [Range(3 * offset, e - offset)] else [], t) <==> offset <= t < e
  {
    if e > offset {
      var r := Range(3 * offset, e - offset);
      assert Lo(r) == offset;
      assert r in [r];
    }
  }

  /** A triangle is covered by two lists of ranges together when one of them covers it. */
  lemma CoveredConcat(a: seq<Range>, b: seq<Range>, t: int)
    ensures Covered(a + b, t) <==> Covered(a, t) || Covered(b, t)
  {
    if Covered(a + b, t) {
      var r :| r in a + b && Lo(r) <= t < Hi(r);
      if r in a {
        assert Covered(a, t);
      } else {
        assert Covered(b, t);
      }
    }
    if Covered(a, t) {
      var r :| r in a && Lo(r) <= t < Hi(r);
      assert r in a + b;
    }
    if Covered(b, t) {
      var r :| r in b && Lo(r) <= t < Hi(r);
      assert r in a + b;
    }
  }

  /** Triangle t belongs to a patch in j .. k - 1 whose child is not selected. */
  ghost predicate RunCovered(patches: seq<Patch>, selected: set<nat>, j: nat, k: nat, t: int)
    requires k <= |patches|
  {
    exists i :: j <= i < k && patches[i].node !in selected && Start(patches, i) <= t < Off(patches, i)
  }

  /** The patches from j on are those of j .. mid - 1 and those from mid on. */
  lemma CoveredSplit(patches: seq<Patch>, selected: set<nat>, j: nat, mid: nat, t: int)
    requires j <= mid <= |patches|
    ensures PatchCovered(patches, selected, j, t) <==>
      RunCovered(patches, selected, j, mid, t) || PatchCovered(patches, selected, mid, t)
  {
    if PatchCovered(patches, selected, j, t) {
      var i :| j <= i < |patches| && patches[i].node !in selected && Start(patches, i) <= t < Off(patches, i);
      if i < mid {
        assert RunCovered(patches, selected, j, mid, t);
      } else {
        assert PatchCovered(patches, selected, mid, t);
      }
    }
    if PatchCovered(patches, selected, mid, t) {
      var i :| mid <= i < |patches| && patches[i].node !in selected && Start(patches, i) <= t < Off(patches, i);
      assert PatchCovered(patches, selected, j, t);
    }
  }

  /** A patch whose child is selected covers nothing. */
  lemma SkipSelected(patches: seq<Patch>, selected: set<nat>, k: nat, t: int)
    requires k < |patches| && patches[k].node in selected
    ensures PatchCovered(patches, selected, k, t) <==> PatchCovered(patches, selected, k + 1, t)
  {
    if PatchCovered(patches, selected, k, t) {
      var i :| k <= i < |patches| && patches[i].node !in selected && Start(patches, i) <= t < Off(patches, i);
      assert i != k;
    }
  }

  /**
   * At a flush at patch k, the unselected patches j .. k cover exactly
   * [Offset, e), and the rest of the unselected patches start after k.
   */
  lemma RunCovers(patches: seq<Patch>, selected: set<nat>, k: nat, offset: int, e: int, j: nat, t: int)
    requires Ascending(patches) && j <= k < |patches| && offset == Start(patches, j)
    requires forall i :: j <= i < k ==> patches[i].node !in selected
    requires patches[k].node !in selected ==> e == Off(patches, k)
    requires patches[k].node in selected && j < k ==> e == Off(patches, k - 1)
    requires patches[k].node in selected && j == k ==> e <= offset
    ensures PatchCovered(patches, selected, j, t) <==> (offset <= t < e || PatchCovered(patches, selected, k + 1, t))
  {
    var run := if patches[k].node !in selected then k + 1 else k;
    if run > j {
      RunUnion(patches, j, run, t);
      assert RunCovered(patches, selected, j, run, t) <==>
        exists i :: j <= i < run && Start(patches, i) <= t < Off(patches, i);
    }
    assert RunCovered(patches, selected, j, run, t) <==> offset <= t < e;
    CoveredSplit(patches, selected, j, run, t);
    if run == k {
      SkipSelected(patches, selected, k, t);
    }
  }

  /**
   * The emitted ranges, when the offsets ascend: in order, and covering
   * exactly the triangles of the patches whose child is not selected.
   */
  lemma EdgeRangesCover(patches: seq<Patch>, selected: set<nat>)
    requires Ascending(patches)
    ensures Ordered(EdgeRanges(patches, selected))
    ensures forall t :: Covered(EdgeRanges(patches, selected), t) <==> PatchCovered(patches, selected, 0, t)
  {
    assert SliceState(patches, selected, 0, 0, 0, 0);
    SliceOrdered(patches, selected, 0, 0, 0, 0);
    forall t
      ensures Covered(EdgeRanges(patches, selected), t) <==> PatchCovered(patches, selected, 0, t)
    {
      SliceCovers(patches, selected, 0, 0, 0, 0, t);
    }
  }

  /**
   * The slicing loop of DrawEdgeNodes over one node's patches, with its
   * Offset/EndIndex variables: the ranges it emits, each non-empty and
   * 3-aligned, ordered and covering exactly the unselected patches when the
   * offsets ascend.
   */
  method SliceRanges(patches: seq<Patch>, selected: set<nat>) returns (ranges: seq<Range>)
    ensures ranges == EdgeRanges(patches, selected)
    ensures forall r :: r in ranges ==> r.numPrimitives > 0 && r.firstIndex % 3 == 0
    ensures Ascending(patches) ==> Ordered(ranges)
    ensures Ascending(patches) ==> forall t :: Covered(ranges, t) <==> PatchCovered(patches, selected, 0, t)
  {
    var offset := 0;
    var endIndex := 0;
    ranges := [];
    for k := 0 to |patches|
      invariant ranges + SliceFrom(patches, selected, k, offset, endIndex) == EdgeRanges(patches, selected)
    {
      var patch := patches[k];
      ghost var before := SliceFrom(patches, selected, k, offset, endIndex);
      if patch.node !in selected {
        endIndex := AsInt32(patch.triangleOffset);
        if k < |patches| - 1 {
          continue;
        }
      }
      ghost var head := if endIndex > offset then [Range(3 * offset, endIndex - offset)] else [];
      assert before == head + SliceFrom(patches, selected, k + 1, AsInt32(patch.triangleOffset), endIndex);
      if endIndex > offset {
        ranges := ranges + [Range(offset * 3, endIndex - offset)];
      }
      offset := AsInt32(patch.triangleOffset);
    }
    SliceWellFormed(patches, selected, 0, 0, 0);
    if Ascending(patches) {
      EdgeRangesCover(patches, selected);
    }
  }

  /** The IsVisible scan: true as soon as a patch leads to a child outside the selection. */
  method IsEdgeNode(patches: seq<Patch>, selected: set<nat>) returns (visible: bool)
    ensures visible <==> IsEdge(patches, selected)
  {
    visible := false;
    for k := 0 to |patches|
      invariant forall i :: 0 <= i < k ==> patches[i].node in selected
    {
      if patches[k].node !in selected {
        visible := true;
        break;
      }
    }
  }

  /** Whether DrawEdgeNodes draws a selected node: loaded, on the edge when culling is on, in the frustum. */
  predicate Drawn(loaded: set<nat>, nodePatches: seq<seq<Patch>>, selected: set<nat>, frustumCulling: bool,
                  inFrustum: nat -> bool, id: nat)
  {
    id in loaded && id < |nodePatches| &&
    (!frustumCulling || IsEdge(nodePatches[id], selected)) && inFrustum(id)
  }

  /** The triangles the meshes draw, RenderedCount's contribution. */
  function Primitives(meshes: seq<Mesh>): int
  {
    if meshes == [] then 0 else Primitives(meshes[..|meshes| - 1]) + meshes[|meshes| - 1].range.numPrimitives
  }

  /** The AddMesh calls for one node: a mesh per range, in order, each adding its triangles to the count. */
  method AppendMeshes(meshes: seq<Mesh>, rendered: int, id: nat, ranges: seq<Range>)
    returns (meshes': seq<Mesh>, rendered': int)
    requires rendered == Primitives(meshes)
    ensures forall m :: m in meshes' <==> m in meshes || (m.node == id && m.range in ranges)
    ensures rendered' == Primitives(meshes')
  {
    meshes', rendered' := meshes, rendered;
    for i := 0 to |ranges|
      invariant |meshes'| == |meshes| + i && meshes'[..|meshes|] == meshes
      invariant forall x :: |meshes| <= x < |meshes'| ==> meshes'[x] == Mesh(id, ranges[x - |meshes|])
      invariant rendered' == Primitives(meshes')
    {
      var m := Mesh(id, ranges[i]);
      assert (meshes' + [m])[..|meshes'|] == meshes';
      meshes' := meshes' + [m];
      rendered' := rendered' + ranges[i].numPrimitives;
    }
    forall m | m in meshes'
      ensures m in meshes || (m.node == id && m.range in ranges)
    {
      var x :| 0 <= x < |meshes'| && meshes'[x] == m;
      if x < |meshes| {
        assert m == meshes[x];
      } else {
        assert m == Mesh(id, ranges[x - |meshes|]);
      }
    }
    forall r | r in ranges
      ensures Mesh(id, r) in meshes'
    {
      var x :| 0 <= x < |ranges| && ranges[x] == r;
      assert meshes'[|meshes| + x] == Mesh(id, r);
    }
    forall m | m in meshes
      ensures m in meshes'
    {
      var x :| 0 <= x < |meshes| && meshes[x] == m;
      assert meshes'[x] == m;
    }
  }

  /**
   * DrawEdgeNodes over the last selection, in whatever order the set yields
   * it: the meshes are exactly the ranges of the drawn nodes, and rendered
   * counts their triangles.  loaded is the key set of LoadedMeshData and
   * inFrustum the sphere test against the view.
   */
  method DrawEdgeNodes(selected: set<nat>, loaded: set<nat>, nodePatches: seq<seq<Patch>>, frustumCulling: bool,
                       inFrustum: nat -> bool) returns (meshes: seq<Mesh>, rendered: int)
    requires forall id :: id in selected && id in loaded ==> id + 1 < |nodePatches|
    ensures forall m :: m in meshes ==>
      m.node in selected && Drawn(loaded, nodePatches, selected, frustumCulling, inFrustum, m.node) &&
      m.range in EdgeRanges(nodePatches[m.node], selected)
    ensures forall id, r ::
      (id in selected && Drawn(loaded, nodePatches, selected, frustumCulling, inFrustum, id) &&
       r in EdgeRanges(nodePatches[id], selected)) ==> Mesh(id, r) in meshes
    ensures forall m :: m in meshes ==> m.range.numPrimitives > 0 && m.range.firstIndex % 3 == 0
    ensures rendered == Primitives(meshes)
  {
    var remaining := selected;
    meshes := [];
    rendered := 0;
    while remaining != {}
      invariant remaining <= selected
      invariant forall m :: m in meshes ==>
        m.node in selected && m.node !in remaining && Drawn(loaded, nodePatches, selected, frustumCulling, inFrustum, m.node) &&
        m.range in EdgeRanges(nodePatches[m.node], selected) &&
        m.range.numPrimitives > 0 && m.range.firstIndex % 3 == 0
      invariant forall id, r ::
        (id in selected && id !in remaining && Drawn(loaded, nodePatches, selected, frustumCulling, inFrustum, id) &&
         r in EdgeRanges(nodePatches[id], selected)) ==> Mesh(id, r) in meshes
      invariant rendered == Primitives(meshes)
      decreases |remaining|
    {
      var id :| id in remaining;
      remaining := remaining - {id};
      if id !in loaded {
        continue;
      }
      var patches := nodePatches[id];
      var visible := IsEdgeNode(patches, selected);
      if frustumCulling && !visible {
        continue;
      }
      if !inFrustum(id) {
        continue;
      }
      var ranges := SliceRanges(patches, selected);
      meshes, rendered := AppendMeshes(meshes, rendered, id, ranges);
    }
  }
}
