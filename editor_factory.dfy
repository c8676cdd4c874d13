/**
 * The editor import factory (UNexusFactory in the editor module): the header
 * parse over the imported buffer, and InitData, which reads the tables,
 * gives every node but the sink a node asset holding a copy of its bytes,
 * hands each node its patches, sizes every texture but the last from the
 * next texture's offset, and counts the roots.
 */
module EditorFactory {
  import opened Wire
  import opened Records
  import opened Dag
  import opened NodeDecode
  import opened NodeSerial

  /** The file bytes a texture asset is decoded from: ReadTextureFromBuffer's Offset and TextureSize. */
  datatype TextureSource = TextureSource(offset: U32, size: U32)

  /** FUnrealNexusNode: the node record, its node asset (null until created) and its patches. */
  datatype UnrealNode = UnrealNode(nexusNode: Node, nodeDataPath: NodeAsset?, nodePatches: seq<Patch>)

  /** The imported asset (UUnrealNexusData as the editor fills it). */
  class NexusAsset {
    var header: Header
    var nodes: seq<UnrealNode>
    /** NodeTexturesPaths: the texture asset of each texture, None where none was made. */
    var nodeTextures: seq<Option<TextureSource>>
    var rootsCount: nat

    constructor (header: Header)
      ensures this.header == header && nodes == [] && nodeTextures == [] && rootsCount == 0
    {
      this.header := header;
      nodes := [];
      nodeTextures := [];
      rootsCount := 0;
    }
  }

  /**
   * ParseHeader(NexusData, Buffer, BufferEnd): buf is the whole buffer and
   * cursor the position of Buffer.  Fewer than 88 bytes left: false, nothing
   * read.  Otherwise the magic word is read and stored; a wrong one returns
   * false with the cursor 4 bytes on.  Otherwise every field is read and the
   * cursor ends 88 bytes on.
   */
  method ParseHeader(data: NexusAsset, buf: Bytes, cursor: nat) returns (ok: bool, next: nat)
    requires cursor <= |buf|
    modifies data`header
    ensures ok <==> ParseHeaderAt(buf, cursor).Some?
    ensures ok ==> data.header == ParseHeaderAt(buf, cursor).value && next == cursor + HeaderSize
    ensures !ok && cursor + HeaderSize <= |buf| ==>
      data.header == old(data.header).(magic := Read32(buf, cursor).0) && next == cursor + 4
    ensures |buf| < cursor + HeaderSize ==> !ok && data.header == old(data.header) && next == cursor
  {
    if |buf| - cursor < HeaderSize {
      assert ParseHeaderAt(buf, cursor) == None;
      return false, cursor;
    }
    var h;
    ok, h, next := DecodeHeaderAt(buf, cursor, data.header);
    data.header := h;
  }

  /** ReadDataIntoNexusFile: exactly ParseHeader. */
  method ReadDataIntoNexusFile(data: NexusAsset, buf: Bytes, cursor: nat) returns (ok: bool, next: nat)
    requires cursor <= |buf|
    modifies data`header
    ensures ok <==> ParseHeaderAt(buf, cursor).Some?
    ensures ok ==> data.header == ParseHeaderAt(buf, cursor).value && next == cursor + HeaderSize
    ensures !ok && cursor + HeaderSize <= |buf| ==>
      data.header == old(data.header).(magic := Read32(buf, cursor).0) && next == cursor + 4
    ensures |buf| < cursor + HeaderSize ==> !ok && data.header == old(data.header) && next == cursor
  {
    ok, next := ParseHeader(data, buf, cursor);
  }

  // ---------------------------------------------------------------------
  // Node sizes and node images.

  /**
   * UNodeData->NodeSize of node i: the next node's begin offset minus this
   * one's, stored in a 32-bit field.  beginOffset is the library's
   * Node::getBeginOffset.
   */
  function NodeSize(nodes: seq<Node>, beginOffset: Node -> nat, i: nat): (size: U32)
    requires i + 1 < |nodes|
    ensures beginOffset(nodes[i]) <= beginOffset(nodes[i + 1]) < beginOffset(nodes[i]) + 0x1_0000_0000 ==>
      beginOffset(nodes[i]) + size == beginOffset(nodes[i + 1])
  {
    UnsignedSub(beginOffset(nodes[i + 1]), beginOffset(nodes[i]), 0x1_0000_0000)
  }

  /** The copy of node i's bytes lies inside the file. */
  ghost predicate NodeBytesInFile(buf: Bytes, nodes: seq<Node>, beginOffset: Node -> nat, i: nat)
    requires i + 1 < |nodes|
  {
    beginOffset(nodes[i]) + NodeSize(nodes, beginOffset, i) <= |buf|
  }

  /** The bytes a node asset of node i holds: NodeSize bytes of the file from its begin offset. */
  ghost function NodeImage(buf: Bytes, nodes: seq<Node>, beginOffset: Node -> nat, i: nat): Bytes
    requires i + 1 < |nodes| && NodeBytesInFile(buf, nodes, beginOffset, i)
  {
    buf[beginOffset(nodes[i])..beginOffset(nodes[i]) + NodeSize(nodes, beginOffset, i)]
  }

  /** A node asset holding size bytes copied from the file at from. */
  ghost predicate HoldsBytes(a: NodeAsset, buf: Bytes, from: nat, size: U32)
    reads a, a.data, a.data.memory
  {
    a.nodeSize == size && a.data.memory != null && from + size <= |buf| &&
    a.data.memory[..] == buf[from..from + size]
  }

  /** Begin offsets that never decrease along the node table, and never jump by 2^32 or more. */
  ghost predicate OffsetsAscending(nodes: seq<Node>, beginOffset: Node -> nat)
  {
    forall i :: 0 <= i < |nodes| - 1 ==>
      beginOffset(nodes[i]) <= beginOffset(nodes[i + 1]) < beginOffset(nodes[i]) + 0x1_0000_0000
  }

  /**
   * The images of nodes 0..k-1 laid end to end.  With ascending offsets they
   * are exactly the file bytes from node 0's begin offset to node k's: the
   * node assets cover the node data without gap or overlap.
   */
  ghost function Images(buf: Bytes, nodes: seq<Node>, beginOffset: Node -> nat, k: nat): (r: Bytes)
    requires OffsetsAscending(nodes, beginOffset) && k < |nodes| && beginOffset(nodes[k]) <= |buf|
    ensures beginOffset(nodes[0]) <= beginOffset(nodes[k]) &&
      r == buf[beginOffset(nodes[0])..beginOffset(nodes[k])]
  {
    if k == 0 then []
    else
      var prev := Images(buf, nodes, beginOffset, k - 1);
      prev + NodeImage(buf, nodes, beginOffset, k - 1)
  }

  // ---------------------------------------------------------------------
  // InitData.

  /** The table InitData leaves: node records with no asset and no patches yet. */
  function FreshNodes(ns: seq<Node>): (nodes: seq<UnrealNode>)
    ensures |nodes| == |ns|
    ensures forall i :: 0 <= i < |ns| ==> nodes[i] == UnrealNode(ns[i], null, [])
  {
    seq(|ns|, i requires 0 <= i < |ns| => UnrealNode(ns[i], null, []))
  }

  /**
   * InitData(Data, Buffer, FileBegin) on a freshly created asset: buf is the
   * file (FileBegin its start) and cursor the position of Buffer, just after
   * the header.  The file must hold well-formed node and patch tables there,
   * named by the ghost parameters, and each node's bytes must lie in the
   * file, as the source copies them without checks.
   */
  method InitData(data: NexusAsset, buf: Bytes, cursor: nat, beginOffset: Node -> nat,
                  ghost fileNodes: seq<Node>, ghost filePatches: seq<Patch>, ghost fileTextures: seq<Texture>)
    returns (next: nat)
    requires data.nodes == []
    requires |fileNodes| == data.header.nNodes && |filePatches| == data.header.nPatches
    requires |fileTextures| == data.header.nTextures
    requires NodeTableAt(buf, cursor, fileNodes)
    requires PatchTableAt(buf, cursor + NodeRecordSize * data.header.nNodes, filePatches)
    requires TextureTableAt(buf, cursor + NodeRecordSize * data.header.nNodes +
      PatchRecordSize * data.header.nPatches, fileTextures)
    requires WellFormedDag(fileNodes, filePatches)
    requires forall i :: 0 <= i < |fileNodes| - 1 ==> NodeBytesInFile(buf, fileNodes, beginOffset, i)
    modifies data
    ensures data.header == old(data.header)
    ensures next == cursor + NodeRecordSize * data.header.nNodes +
      PatchRecordSize * data.header.nPatches + TextureRecordSize * data.header.nTextures
    ensures |data.nodes| == |fileNodes|
    ensures forall i :: 0 <= i < |fileNodes| ==>
      data.nodes[i].nexusNode == fileNodes[i] &&
      data.nodes[i].nodePatches == NodePatches(fileNodes, filePatches, i)
    ensures forall i :: 0 <= i < |fileNodes| - 1 ==>
      data.nodes[i].nodeDataPath != null && fresh(data.nodes[i].nodeDataPath) &&
      HoldsBytes(data.nodes[i].nodeDataPath, buf, beginOffset(fileNodes[i]), NodeSize(fileNodes, beginOffset, i))
    ensures data.nodes[|fileNodes| - 1].nodeDataPath == null
    ensures data.nodeTextures == TextureSources(fileTextures)
    ensures IsRootCount(fileNodes, filePatches, data.rootsCount)
  {
    var h := data.header;
    var p := cursor + NodeRecordSize * h.nNodes + PatchRecordSize * h.nPatches;
    var ts;
    ts, next := ReadTextureTable(buf, p, h.nTextures);
    TextureTableAtUnique(buf, p, ts, fileTextures);
    var paths := MakeTextureSources(ts);
    var nodes, roots := BuildNodes(buf, cursor, beginOffset, h.nNodes, h.nPatches, fileNodes, filePatches);
    data.nodes, data.nodeTextures, data.rootsCount := nodes, paths, roots;
  }

  /**
   * The node half of InitData: the node table, a node asset for every node
   * but the sink, then the patch table, each node's patches and the number
   * of roots.
   */
  method BuildNodes(buf: Bytes, cursor: nat, beginOffset: Node -> nat, nNodes: nat, nPatches: nat,
                    ghost fileNodes: seq<Node>, ghost filePatches: seq<Patch>)
    returns (nodes: seq<UnrealNode>, roots: nat)
    requires |fileNodes| == nNodes && |filePatches| == nPatches
    requires NodeTableAt(buf, cursor, fileNodes)
    requires PatchTableAt(buf, cursor + NodeRecordSize * nNodes, filePatches)
    requires cursor + NodeRecordSize * nNodes + PatchRecordSize * nPatches <= |buf|
    requires WellFormedDag(fileNodes, filePatches)
    requires forall i :: 0 <= i < |fileNodes| - 1 ==> NodeBytesInFile(buf, fileNodes, beginOffset, i)
    ensures |nodes| == |fileNodes|
    ensures forall i :: 0 <= i < |fileNodes| ==>
      nodes[i].nexusNode == fileNodes[i] &&
      nodes[i].nodePatches == NodePatches(fileNodes, filePatches, i)
    ensures forall i :: 0 <= i < |fileNodes| - 1 ==>
      nodes[i].nodeDataPath != null && fresh(nodes[i].nodeDataPath) &&
      HoldsBytes(nodes[i].nodeDataPath, buf, beginOffset(fileNodes[i]), NodeSize(fileNodes, beginOffset, i))
    ensures nodes[|fileNodes| - 1].nodeDataPath == null
    ensures IsRootCount(fileNodes, filePatches, roots)
  {
    var ns;
    nodes, ns := ReadNodeAssets(buf, cursor, beginOffset, nNodes, fileNodes);
    var ps, _ := ReadPatchTable(buf, cursor + NodeRecordSize * nNodes, nPatches);
    PatchTableAtUnique(buf, cursor + NodeRecordSize * nNodes, ps, filePatches);
    nodes := AssignPatches(nodes, ps);
    roots := CountRoots(ns, ps);
  }

  /** The node table at cursor, and a node asset for every node but the sink; no patches yet. */
  method ReadNodeAssets(buf: Bytes, cursor: nat, beginOffset: Node -> nat, nNodes: nat, ghost fileNodes: seq<Node>)
    returns (nodes: seq<UnrealNode>, ns: seq<Node>)
    requires |fileNodes| == nNodes >= 1
    requires NodeTableAt(buf, cursor, fileNodes)
    requires cursor + NodeRecordSize * nNodes <= |buf|
    requires forall i :: 0 <= i < |fileNodes| - 1 ==> NodeBytesInFile(buf, fileNodes, beginOffset, i)
    ensures ns == fileNodes && |nodes| == |fileNodes| && NexusNodes(nodes) == fileNodes
    ensures forall i :: 0 <= i < |fileNodes| ==> nodes[i].nodePatches == []
    ensures forall i :: 0 <= i < |fileNodes| - 1 ==>
      nodes[i].nodeDataPath != null && fresh(nodes[i].nodeDataPath) &&
      HoldsBytes(nodes[i].nodeDataPath, buf, beginOffset(fileNodes[i]), NodeSize(fileNodes, beginOffset, i))
    ensures nodes[|fileNodes| - 1].nodeDataPath == null
  {
    var p;
    ns, p := ReadNodeTable(buf, cursor, nNodes);
    NodeTableAtUnique(buf, cursor, ns, fileNodes);
    nodes := FreshNodes(ns);
    assert NexusNodes(nodes) == ns;
    nodes := AttachNodeAssets(buf, nodes, beginOffset);
    assert NexusNodes(nodes) == ns;
  }

  /** A fresh node asset whose memory is a copy of size file bytes from from (new char[size], then memcpy). */
  method NewNodeAsset(buf: Bytes, from: nat, size: U32) returns (a: NodeAsset)
    requires from + size <= |buf|
    ensures fresh(a) && fresh(a.data) && fresh(a.data.memory)
    ensures HoldsBytes(a, buf, from, size)
  {
    var d := new NodeData();
    d.memory := new U8[size](k => if 0 <= k && from + k < |buf| then buf[from + k] else 0);
    assert d.memory[..] == buf[from..from + size];
    a := new NodeAsset(d, size);
  }

  /**
   * The node-asset loop: for every node but the sink, a node asset of
   * NodeSize bytes copied from the file at the node's begin offset.
   */
  method AttachNodeAssets(buf: Bytes, nodes: seq<UnrealNode>, beginOffset: Node -> nat)
    returns (out: seq<UnrealNode>)
    requires |nodes| >= 1
    requires forall i :: 0 <= i < |nodes| - 1 ==>
      NodeBytesInFile(buf, NexusNodes(nodes), beginOffset, i)
    ensures |out| == |nodes| && out[|nodes| - 1] == nodes[|nodes| - 1]
    ensures forall i :: 0 <= i < |nodes| ==>
      out[i].nexusNode == nodes[i].nexusNode && out[i].nodePatches == nodes[i].nodePatches
    ensures forall i :: 0 <= i < |nodes| - 1 ==>
      out[i].nodeDataPath != null && fresh(out[i].nodeDataPath) &&
      HoldsBytes(out[i].nodeDataPath, buf, beginOffset(nodes[i].nexusNode), NodeSize(NexusNodes(nodes), beginOffset, i))
  {
    var ns := NexusNodes(nodes);
    out := nodes;
    for i := 0 to |nodes| - 1
      invariant |out| == |nodes| && out[|nodes| - 1] == nodes[|nodes| - 1]
      invariant forall j :: 0 <= j < |nodes| ==>
        out[j].nexusNode == nodes[j].nexusNode && out[j].nodePatches == nodes[j].nodePatches
      invariant forall j :: 0 <= j < i ==>
        out[j].nodeDataPath != null && fresh(out[j].nodeDataPath) &&
        fresh(out[j].nodeDataPath.data) && fresh(out[j].nodeDataPath.data.memory) &&
        HoldsBytes(out[j].nodeDataPath, buf, beginOffset(nodes[j].nexusNode), NodeSize(ns, beginOffset, j))
    {
      var size := NodeSize(ns, beginOffset, i);
      assert NodeBytesInFile(buf, ns, beginOffset, i);
      var asset := NewNodeAsset(buf, beginOffset(nodes[i].nexusNode), size);
      out := out[i := out[i].(nodeDataPath := asset)];
    }
  }

  /** The node records of a node table. */
  function NexusNodes(nodes: seq<UnrealNode>): (ns: seq<Node>)
    ensures |ns| == |nodes|
    ensures forall i :: 0 <= i < |nodes| ==> ns[i] == nodes[i].nexusNode
  {
    seq(|nodes|, i requires 0 <= i < |nodes| => nodes[i].nexusNode)
  }

  /**
   * The patch-assignment loop: for every node but the sink, append the
   * patches from its first patch up to the next node's first patch.
   */
  method AssignPatches(nodes: seq<UnrealNode>, patches: seq<Patch>) returns (out: seq<UnrealNode>)
    requires WellFormedDag(NexusNodes(nodes), patches)
    requires forall i :: 0 <= i < |nodes| ==> nodes[i].nodePatches == []
    ensures |out| == |nodes|
    ensures forall i :: 0 <= i < |nodes| ==>
      out[i].nexusNode == nodes[i].nexusNode && out[i].nodeDataPath == nodes[i].nodeDataPath &&
      out[i].nodePatches == NodePatches(NexusNodes(nodes), patches, i)
  {
    ghost var ns := NexusNodes(nodes);
    out := nodes;
    for i := 0 to |nodes| - 1
      invariant |out| == |nodes|
      invariant forall j :: 0 <= j < |nodes| ==>
        out[j].nexusNode == nodes[j].nexusNode && out[j].nodeDataPath == nodes[j].nodeDataPath
      invariant forall j :: 0 <= j < i ==> out[j].nodePatches == NodePatches(ns, patches, j)
      invariant forall j :: i <= j < |nodes| ==> out[j].nodePatches == []
    {
      PatchRangeInBounds(ns, patches, i);
      var last := nodes[i + 1].nexusNode.firstPatch;
      var list := [];
      for id := nodes[i].nexusNode.firstPatch to last
        invariant list == patches[nodes[i].nexusNode.firstPatch..id]
      {
        list := list + [patches[id]];
      }
      out := out[i := out[i].(nodePatches := list)];
    }
    assert NodePatches(ns, patches, |nodes| - 1) == [];
  }

  // ---------------------------------------------------------------------
  // Texture sizes.

  /**
   * NodeTexturesPaths after InitData: one entry per texture; every texture
   * but the last is decoded from its offset up to the next texture's offset
   * (a 32-bit difference), the last gets nothing.
   */
  function TextureSources(ts: seq<Texture>): (paths: seq<Option<TextureSource>>)
    ensures |paths| == |ts|
    ensures forall i :: 0 <= i < |ts| - 1 ==> paths[i] == Some(TextureBytes(ts, i))
    ensures |ts| > 0 ==> paths[|ts| - 1] == None
  {
    seq(|ts|, i requires 0 <= i < |ts| => if i < |ts| - 1 then Some(TextureBytes(ts, i)) else None)
  }

  /** Texture i's bytes: from its offset up to the next texture's offset, as a 32-bit difference. */
  function TextureBytes(ts: seq<Texture>, i: nat): (src: TextureSource)
    requires i + 1 < |ts|
    ensures src.offset == ts[i].offset
    ensures ts[i].offset <= ts[i + 1].offset ==> src.offset + src.size == ts[i + 1].offset
    ensures ts[i + 1].offset < ts[i].offset ==> src.size == 0x1_0000_0000 - (ts[i].offset - ts[i + 1].offset)
  {
    TextureSource(ts[i].offset, UnsignedSub(ts[i + 1].offset, ts[i].offset, 0x1_0000_0000))
  }

  /** The texture loop: SetNum(Num), then an entry for every i < Num - 1. */
  method MakeTextureSources(ts: seq<Texture>) returns (paths: seq<Option<TextureSource>>)
    ensures paths == TextureSources(ts)
  {
    paths := seq(|ts|, _ => None);
    var i := 0;
    while i < |ts| - 1
      invariant 0 <= i && |paths| == |ts|
      invariant |ts| > 0 ==> i <= |ts| - 1
      invariant forall j :: 0 <= j < |ts| ==> paths[j] == (if j < i then TextureSources(ts)[j] else None)
    {
      var size := UnsignedSub(ts[i + 1].offset, ts[i].offset, 0x1_0000_0000);
      paths := paths[i := Some(TextureSource(ts[i].offset, size))];
      assert paths[i] == TextureSources(ts)[i];
      i := i + 1;
    }
  }

}
