/**
 * The patch DAG of a Nexus file: the record tables read one after the other,
 * each node's patch range, and the scan that counts the root nodes.
 */
module Dag {
  import opened Wire
  import opened Records

  /**
   * What a well-formed file guarantees about its tables: at least the sink
   * node, first_patch never decreasing along the node table and never past
   * the patch table, every patch naming an existing node.
   */
  ghost predicate WellFormedDag(nodes: seq<Node>, patches: seq<Patch>)
  {
    |nodes| >= 1 &&
    (forall j, k :: 0 <= j <= k < |nodes| ==> nodes[j].firstPatch <= nodes[k].firstPatch) &&
    nodes[|nodes| - 1].firstPatch <= |patches| &&
    forall i :: 0 <= i < |patches| ==> patches[i].node < |nodes|
  }

  /**
   * One past the last patch of node j: the next node's first patch.  The last
   * node (the sink) owns no patches, so its range is empty.
   */
  function PatchEnd(nodes: seq<Node>, j: nat): (e: nat)
    requires j < |nodes|
    ensures j + 1 < |nodes| ==> e == nodes[j + 1].firstPatch
    ensures j + 1 == |nodes| ==> e == nodes[j].firstPatch
  {
    if j + 1 < |nodes| then nodes[j + 1].firstPatch else nodes[j].firstPatch
  }

  lemma PatchRangeInBounds(nodes: seq<Node>, patches: seq<Patch>, j: nat)
    requires WellFormedDag(nodes, patches) && j < |nodes|
    ensures nodes[j].firstPatch <= PatchEnd(nodes, j) <= |patches|
  {
  }

  /** The patches of node j, in file order. */
  function NodePatches(nodes: seq<Node>, patches: seq<Patch>, j: nat): (ps: seq<Patch>)
    requires WellFormedDag(nodes, patches) && j < |nodes|
    ensures |ps| == PatchEnd(nodes, j) - nodes[j].firstPatch
    ensures forall k :: 0 <= k < |ps| ==> ps[k] == patches[nodes[j].firstPatch + k]
  {
    PatchRangeInBounds(nodes, patches, j);
    patches[nodes[j].firstPatch..PatchEnd(nodes, j)]
  }

  /** Patch i belongs to node j. */
  ghost predicate InRange(nodes: seq<Node>, j: nat, i: int)
    requires j < |nodes|
  {
    nodes[j].firstPatch <= i < PatchEnd(nodes, j)
  }

  /** Every patch points from a node to a later node, as the Nexus builder lays nodes out. */
  ghost predicate Topological(nodes: seq<Node>, patches: seq<Patch>)
    requires WellFormedDag(nodes, patches)
  {
    forall j, i :: 0 <= j < |nodes| && InRange(nodes, j, i) ==> patches[i].node > j
  }

  /**
   * What the root scan establishes about its result r: no patch of a node
   * before r points before r, and, unless r is the node count, some patch
   * points at r.
   */
  ghost predicate IsRootCount(nodes: seq<Node>, patches: seq<Patch>, r: nat)
    requires WellFormedDag(nodes, patches)
  {
    r <= |nodes| &&
    (forall j, i :: 0 <= j < r && InRange(nodes, j, i) ==> patches[i].node >= r) &&
    (r < |nodes| ==> exists j, i :: 0 <= j < |nodes| && InRange(nodes, j, i) && patches[i].node == r)
  }

  /**
   * The independent reading of "the roots": the nodes below r have no parent
   * at all, and r itself (unless past the end) has one.
   */
  ghost predicate RootsAreParentless(nodes: seq<Node>, patches: seq<Patch>, r: nat)
    requires WellFormedDag(nodes, patches)
  {
    r <= |nodes| &&
    (forall j, i :: 0 <= j < |nodes| && InRange(nodes, j, i) ==> patches[i].node >= r) &&
    (r < |nodes| ==> exists j, i :: 0 <= j < |nodes| && InRange(nodes, j, i) && patches[i].node == r)
  }

  /**
   * The root scan of InitData: start from the node count and, for every node
   * still below the current count, lower the count to any child id below it.
   */
  method CountRoots(nodes: seq<Node>, patches: seq<Patch>) returns (roots: nat)
    requires WellFormedDag(nodes, patches)
    ensures IsRootCount(nodes, patches, roots)
  {
    roots := |nodes|;
    var j := 0;
    while j < roots
      invariant j <= |nodes| && roots <= |nodes|
      invariant forall j', i :: 0 <= j' < j && InRange(nodes, j', i) ==> patches[i].node >= roots
      invariant roots < |nodes| ==>
        exists j', i :: 0 <= j' < |nodes| && InRange(nodes, j', i) && patches[i].node == roots
      decreases |nodes| - j
    {
      PatchRangeInBounds(nodes, patches, j);
      var i := nodes[j].firstPatch;
      while i < PatchEnd(nodes, j)
        invariant nodes[j].firstPatch <= i <= PatchEnd(nodes, j)
        invariant j < |nodes| && roots <= |nodes|
        invariant forall j', i' :: 0 <= j' < j && InRange(nodes, j', i') ==> patches[i'].node >= roots
        invariant forall i' :: nodes[j].firstPatch <= i' < i ==> patches[i'].node >= roots
        invariant roots < |nodes| ==>
          exists j', i' :: 0 <= j' < |nodes| && InRange(nodes, j', i') && patches[i'].node == roots
      {
        if patches[i].node < roots {
          roots := patches[i].node;
          assert InRange(nodes, j, i);
        }
        i := i + 1;
      }
      j := j + 1;
    }
  }

  /** In a topologically ordered DAG the scan's count is exactly the number of parentless nodes. */
  lemma RootCountIsParentless(nodes: seq<Node>, patches: seq<Patch>, r: nat)
    requires WellFormedDag(nodes, patches) && Topological(nodes, patches)
    requires IsRootCount(nodes, patches, r)
    ensures RootsAreParentless(nodes, patches, r)
  {
    forall j, i | 0 <= j < |nodes| && InRange(nodes, j, i)
      ensures patches[i].node >= r
    {
      if j >= r {
        assert patches[i].node > j;
      }
    }
  }

  /** Only one count can have the parentless-prefix property. */
  lemma ParentlessUnique(nodes: seq<Node>, patches: seq<Patch>, r1: nat, r2: nat)
    requires WellFormedDag(nodes, patches)
    requires RootsAreParentless(nodes, patches, r1) && RootsAreParentless(nodes, patches, r2)
    ensures r1 == r2
  {
  }

  // ---------------------------------------------------------------------
  // The record tables, read one record after the other from the cursor.

  /**
   * Where record i of a table of size-byte records starting at pos begins.
   * The table predicates quantify over it, so that a table fact is used only
   * where a record's position is named.
   */
  ghost function RecordPos(pos: nat, size: nat, i: nat): (p: nat)
    ensures p == pos + size * i
  {
    pos + size * i
  }

  /** One ReadNode step of a table loop: the node record at pos and the cursor after it. */
  method NextNode(buf: Bytes, pos: nat) returns (node: Node, end: nat)
    requires pos + NodeRecordSize <= |buf|
    ensures end == pos + NodeRecordSize && NodeAt(buf, pos, node)
  {
    var r := ReadNode(buf, pos);
    node, end := r.0, r.1;
  }

  /** One ReadPatch step of a table loop. */
  method NextPatch(buf: Bytes, pos: nat) returns (patch: Patch, end: nat)
    requires pos + PatchRecordSize <= |buf|
    ensures end == pos + PatchRecordSize && PatchAt(buf, pos, patch)
  {
    var r := ReadPatch(buf, pos);
    patch, end := r.0, r.1;
  }

  /** One ReadTexture step of a table loop. */
  method NextTexture(buf: Bytes, pos: nat) returns (texture: Texture, end: nat)
    requires pos + TextureRecordSize <= |buf|
    ensures end == pos + TextureRecordSize && TextureAt(buf, pos, texture)
  {
    var r := ReadTexture(buf, pos);
    texture, end := r.0, r.1;
  }

  /** The node records of a table, one after the other from pos. */
  ghost predicate NodeTableAt(buf: Bytes, pos: nat, nodes: seq<Node>)
  {
    pos + NodeRecordSize * |nodes| <= |buf| &&
    forall i {:trigger NodeAt(buf, RecordPos(pos, NodeRecordSize, i), nodes[i])} :: 0 <= i < |nodes| ==>
      NodeAt(buf, RecordPos(pos, NodeRecordSize, i), nodes[i])
  }

  /** A table followed by one more record is a table one longer. */
  lemma NodeTableSnoc(buf: Bytes, pos: nat, nodes: seq<Node>, node: Node)
    requires NodeTableAt(buf, pos, nodes) && NodeAt(buf, pos + NodeRecordSize * |nodes|, node)
    ensures NodeTableAt(buf, pos, nodes + [node])
  {
    forall i | 0 <= i < |nodes| + 1
      ensures NodeAt(buf, RecordPos(pos, NodeRecordSize, i), (nodes + [node])[i])
    {
      if i < |nodes| {
        assert NodeAt(buf, RecordPos(pos, NodeRecordSize, i), nodes[i]);
      }
    }
  }

  /** The node table: count consecutive node records from pos, read one after the other. */
  method ReadNodeTable(buf: Bytes, pos: nat, count: nat) returns (nodes: seq<Node>, end: nat)
    requires pos + NodeRecordSize * count <= |buf|
    ensures end == pos + NodeRecordSize * count && |nodes| == count
    ensures NodeTableAt(buf, pos, nodes)
  {
    nodes := [];
    end := pos;
    while |nodes| < count
      invariant |nodes| <= count && end == pos + NodeRecordSize * |nodes|
      invariant NodeTableAt(buf, pos, nodes)
    {
      var node, next := NextNode(buf, end);
      NodeTableSnoc(buf, pos, nodes, node);
      end := next;
      nodes := nodes + [node];
    }
  }

  /** The patch records of a table, one after the other from pos. */
  ghost predicate PatchTableAt(buf: Bytes, pos: nat, patches: seq<Patch>)
  {
    pos + PatchRecordSize * |patches| <= |buf| &&
    forall i {:trigger PatchAt(buf, RecordPos(pos, PatchRecordSize, i), patches[i])} :: 0 <= i < |patches| ==>
      PatchAt(buf, RecordPos(pos, PatchRecordSize, i), patches[i])
  }

  /** A table followed by one more record is a table one longer. */
  lemma PatchTableSnoc(buf: Bytes, pos: nat, patches: seq<Patch>, patch: Patch)
    requires PatchTableAt(buf, pos, patches) && PatchAt(buf, pos + PatchRecordSize * |patches|, patch)
    ensures PatchTableAt(buf, pos, patches + [patch])
  {
    forall i | 0 <= i < |patches| + 1
      ensures PatchAt(buf, RecordPos(pos, PatchRecordSize, i), (patches + [patch])[i])
    {
      if i < |patches| {
        assert PatchAt(buf, RecordPos(pos, PatchRecordSize, i), patches[i]);
      }
    }
  }

  /** The patch table: count consecutive patch records from pos, read one after the other. */
  method ReadPatchTable(buf: Bytes, pos: nat, count: nat) returns (patches: seq<Patch>, end: nat)
    requires pos + PatchRecordSize * count <= |buf|
    ensures end == pos + PatchRecordSize * count && |patches| == count
    ensures PatchTableAt(buf, pos, patches)
  {
    patches := [];
    end := pos;
    while |patches| < count
      invariant |patches| <= count && end == pos + PatchRecordSize * |patches|
      invariant PatchTableAt(buf, pos, patches)
    {
      var patch, next := NextPatch(buf, end);
      PatchTableSnoc(buf, pos, patches, patch);
      end := next;
      patches := patches + [patch];
    }
  }

  /** The texture records of a table, one after the other from pos. */
  ghost predicate TextureTableAt(buf: Bytes, pos: nat, textures: seq<Texture>)
  {
    pos + TextureRecordSize * |textures| <= |buf| &&
    forall i {:trigger TextureAt(buf, RecordPos(pos, TextureRecordSize, i), textures[i])} :: 0 <= i < |textures| ==>
      TextureAt(buf, RecordPos(pos, TextureRecordSize, i), textures[i])
  }

  /** A table followed by one more record is a table one longer. */
  lemma TextureTableSnoc(buf: Bytes, pos: nat, textures: seq<Texture>, texture: Texture)
    requires TextureTableAt(buf, pos, textures) && TextureAt(buf, pos + TextureRecordSize * |textures|, texture)
    ensures TextureTableAt(buf, pos, textures + [texture])
  {
    forall i | 0 <= i < |textures| + 1
      ensures TextureAt(buf, RecordPos(pos, TextureRecordSize, i), (textures + [texture])[i])
    {
      if i < |textures| {
        assert TextureAt(buf, RecordPos(pos, TextureRecordSize, i), textures[i]);
      }
    }
  }

  /** The texture table: count consecutive texture records from pos, read one after the other. */
  method ReadTextureTable(buf: Bytes, pos: nat, count: nat) returns (textures: seq<Texture>, end: nat)
    requires pos + TextureRecordSize * count <= |buf|
    ensures end == pos + TextureRecordSize * count && |textures| == count
    ensures TextureTableAt(buf, pos, textures)
  {
    textures := [];
    end := pos;
    while |textures| < count
      invariant |textures| <= count && end == pos + TextureRecordSize * |textures|
      invariant TextureTableAt(buf, pos, textures)
    {
      var texture, next := NextTexture(buf, end);
      TextureTableSnoc(buf, pos, textures, texture);
      end := next;
      textures := textures + [texture];
    }
  }

  /** A table of node records determines its nodes. */
  lemma NodeTableAtUnique(buf: Bytes, pos: nat, a: seq<Node>, b: seq<Node>)
    requires NodeTableAt(buf, pos, a) && NodeTableAt(buf, pos, b) && |a| == |b|
    ensures a == b
  {
    forall i | 0 <= i < |a|
      ensures a[i] == b[i]
    {
      NodeAtUnique(buf, RecordPos(pos, NodeRecordSize, i), a[i], b[i]);
    }
  }

  /** A table of patch records determines its patches. */
  lemma PatchTableAtUnique(buf: Bytes, pos: nat, a: seq<Patch>, b: seq<Patch>)
    requires PatchTableAt(buf, pos, a) && PatchTableAt(buf, pos, b) && |a| == |b|
    ensures a == b
  {
    forall i | 0 <= i < |a|
      ensures a[i] == b[i]
    {
      PatchAtUnique(buf, RecordPos(pos, PatchRecordSize, i), a[i], b[i]);
    }
  }

  /** A table of texture records determines its textures. */
  lemma TextureTableAtUnique(buf: Bytes, pos: nat, a: seq<Texture>, b: seq<Texture>)
    requires TextureTableAt(buf, pos, a) && TextureTableAt(buf, pos, b) && |a| == |b|
    ensures a == b
  {
    forall i | 0 <= i < |a|
      ensures a[i] == b[i]
    {
      TextureAtUnique(buf, RecordPos(pos, TextureRecordSize, i), a[i], b[i]);
    }
  }
}
