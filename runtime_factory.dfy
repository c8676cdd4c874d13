/**
 * The runtime import factory (UNexusFactory in the runtime module): the
 * header parse over an in-memory buffer with a by-reference cursor, and the
 * table reads into freshly allocated arrays followed by the root count.
 */
module RuntimeFactory {
  import opened Wire
  import opened Records
  import opened Dag

  /** The asset the factory fills (UUnrealNexusData): the header, the three record arrays and the root count. */
  class NexusAsset {
    var header: Header
    var nodes: array<Node>
    var patches: array<Patch>
    var textures: array<Texture>
    var rootsCount: nat

    constructor (header: Header)
      ensures this.header == header && rootsCount == 0
      ensures nodes.Length == 0 && patches.Length == 0 && textures.Length == 0
    {
      this.header := header;
      nodes := new Node[0];
      patches := new Patch[0];
      textures := new Texture[0];
      rootsCount := 0;
    }
  }

  /**
   * ParseHeader(NexusData, Buffer, BufferEnd): buf is the whole buffer (its
   * end is BufferEnd) and cursor the position of Buffer.  Fewer than 88
   * bytes left: false, nothing read.  Otherwise the magic word is read and
   * stored; a wrong one returns false with the cursor 4 bytes on.  Otherwise
   * every field is read and the cursor ends 88 bytes on.
   */
  method ParseHeader(data: NexusAsset, buf: Bytes, cursor: nat) returns (ok: bool, next: nat)
    requires cursor <= |buf|
    modifies data`header
    ensures ok <==> ParseHeaderAt(buf, cursor).Some?
    ensures ok ==> data.header == ParseHeaderAt(buf, cursor).value && next == cursor + HeaderSize
    ensures !ok && cursor + HeaderSize <= |buf| ==>
      data.header == old(data.header).(magic := Read32(buf, cursor).0) && next == cursor + 4
    ensures |buf| < cursor + HeaderSize ==> !ok && data.header == old(data.header) && next == cursor
  {
    if |buf| - cursor < HeaderSize {
      assert ParseHeaderAt(buf, cursor) == None;
      return false, cursor;
    }
    var h;
    ok, h, next := DecodeHeaderAt(buf, cursor, data.header);
    data.header := h;
  }

  /** ReadDataIntoNexusFile: exactly ParseHeader. */
  method ReadDataIntoNexusFile(data: NexusAsset, buf: Bytes, cursor: nat) returns (ok: bool, next: nat)
    requires cursor <= |buf|
    modifies data`header
    ensures ok <==> ParseHeaderAt(buf, cursor).Some?
    ensures ok ==> data.header == ParseHeaderAt(buf, cursor).value && next == cursor + HeaderSize
    ensures !ok && cursor + HeaderSize <= |buf| ==>
      data.header == old(data.header).(magic := Read32(buf, cursor).0) && next == cursor + 4
    ensures |buf| < cursor + HeaderSize ==> !ok && data.header == old(data.header) && next == cursor
  {
    ok, next := ParseHeader(data, buf, cursor);
  }

  /**
   * InitData(Data, Buffer): allocate n_nodes nodes, n_patches patches and
   * n_textures textures, fill each array with the records read one after
   * the other from the cursor, then count the roots.  The buffer must hold
   * well-formed tables there, as the source reads without bounds checks;
   * fileNodes and filePatches name them.
   */
  method InitData(data: NexusAsset, buf: Bytes, cursor: nat,
                  ghost fileNodes: seq<Node>, ghost filePatches: seq<Patch>) returns (next: nat)
    requires |fileNodes| == data.header.nNodes && |filePatches| == data.header.nPatches
    requires NodeTableAt(buf, cursor, fileNodes)
    requires PatchTableAt(buf, cursor + NodeRecordSize * data.header.nNodes, filePatches)
    requires cursor + NodeRecordSize * data.header.nNodes + PatchRecordSize * data.header.nPatches +
      TextureRecordSize * data.header.nTextures <= |buf|
    requires WellFormedDag(fileNodes, filePatches)
    modifies data
    ensures data.header == old(data.header)
    ensures fresh(data.nodes) && fresh(data.patches) && fresh(data.textures)
    ensures data.nodes[..] == fileNodes && data.patches[..] == filePatches
    ensures data.textures.Length == data.header.nTextures
    ensures TextureTableAt(buf, cursor + NodeRecordSize * data.header.nNodes +
      PatchRecordSize * data.header.nPatches, data.textures[..])
    ensures next == cursor + NodeRecordSize * data.header.nNodes +
      PatchRecordSize * data.header.nPatches + TextureRecordSize * data.header.nTextures
    ensures IsRootCount(fileNodes, filePatches, data.rootsCount)
  {
    var h := data.header;
    var ns := new Node[h.nNodes];
    var ps := new Patch[h.nPatches];
    var ts := new Texture[h.nTextures];
    var p := cursor;
    p := FillNodes(ns, buf, p);
    NodeTableAtUnique(buf, cursor, ns[..], fileNodes);
    p := FillPatches(ps, buf, p);
    PatchTableAtUnique(buf, cursor + NodeRecordSize * h.nNodes, ps[..], filePatches);
    next := FillTextures(ts, buf, p);
    var roots := CountRoots(ns[..], ps[..]);
    data.nodes, data.patches, data.textures, data.rootsCount := ns, ps, ts, roots;
  }

  /** `Nodes[i] = ReadNode(Buffer)` for every i, in order. */
  method FillNodes(a: array<Node>, buf: Bytes, pos: nat) returns (end: nat)
    requires pos + NodeRecordSize * a.Length <= |buf|
    modifies a
    ensures end == pos + NodeRecordSize * a.Length
    ensures NodeTableAt(buf, pos, a[..])
  {
    end := pos;
    for i := 0 to a.Length
      invariant end == pos + NodeRecordSize * i
      invariant NodeTableAt(buf, pos, a[..i])
    {
      var record, next := NextNode(buf, end);
      NodeTableSnoc(buf, pos, a[..i], record);
      a[i] := record;
      assert a[..i + 1] == a[..i] + [record];
      end := next;
    }
    assert a[..a.Length] == a[..];
  }

  /** `Patches[i] = ReadPatch(Buffer)` for every i, in order. */
  method FillPatches(a: array<Patch>, buf: Bytes, pos: nat) returns (end: nat)
    requires pos + PatchRecordSize * a.Length <= |buf|
    modifies a
    ensures end == pos + PatchRecordSize * a.Length
    ensures PatchTableAt(buf, pos, a[..])
  {
    end := pos;
    for i := 0 to a.Length
      invariant end == pos + PatchRecordSize * i
      invariant PatchTableAt(buf, pos, a[..i])
    {
      var record, next := NextPatch(buf, end);
      PatchTableSnoc(buf, pos, a[..i], record);
      a[i] := record;
      assert a[..i + 1] == a[..i] + [record];
      end := next;
    }
    assert a[..a.Length] == a[..];
  }

  /** `Textures[i] = ReadTexture(Buffer)` for every i, in order. */
  method FillTextures(a: array<Texture>, buf: Bytes, pos: nat) returns (end: nat)
    requires pos + TextureRecordSize * a.Length <= |buf|
    modifies a
    ensures end == pos + TextureRecordSize * a.Length
    ensures TextureTableAt(buf, pos, a[..])
  {
    end := pos;
    for i := 0 to a.Length
      invariant end == pos + TextureRecordSize * i
      invariant TextureTableAt(buf, pos, a[..i])
    {
      var record, next := NextTexture(buf, end);
      TextureTableSnoc(buf, pos, a[..i], record);
      a[i] := record;
      assert a[..i + 1] == a[..i] + [record];
      end := next;
    }
    assert a[..a.Length] == a[..];
  }
}
