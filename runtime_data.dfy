/**
 * The runtime data of a Nexus model (FUnrealNexusData): the header read
 * through the file, the record tables, the root count, and the RAM residency
 * of nodes with the reference counts of the textures their patches use.
 */
module RuntimeData {
  import opened Wire
  import opened Records
  import opened Dag
  import opened NodeDecode

  /**
   * The platform file behind the data: its bytes and a read cursor.  A read
   * reports the requested length on success and -1 on failure; what a failed
   * read leaves in the caller's buffer is indeterminate.
   */
  class NexusFile {
    const contents: Bytes
    var pos: nat

    constructor (contents: Bytes)
      ensures this.contents == contents && pos == 0
    {
      this.contents := contents;
      pos := 0;
    }

    method Read(length: nat) returns (count: int, data: Bytes)
      modifies this
      ensures |data| == length
      ensures old(pos) + length <= |contents| ==>
        count == length && data == contents[old(pos)..old(pos) + length] && pos == old(pos) + length
      ensures |contents| < old(pos) + length ==> count == -1 && pos == old(pos)
    {
      if pos + length <= |contents| {
        count := length;
        data := contents[pos..pos + length];
        pos := pos + length;
      } else {
        count := -1;
        assert |seq(length, _ => 0 as U8)| == length;
        data :| |data| == length;
      }
    }

    method Seek(to: nat)
      modifies this
      ensures pos == to
    {
      pos := to;
    }

    /** map: a region holding size bytes of the file from offset from. */
    method Map(from: nat, size: nat) returns (region: array<U8>)
      requires from + size <= |contents|
      ensures fresh(region) && region[..] == contents[from..from + size]
    {
      region := new U8[size](i => if 0 <= i && from + i < |contents| then contents[from + i] else 0);
      assert region[..] == contents[from..from + size];
    }
  }

  // ---------------------------------------------------------------------
  // The header check.

  /** The bytes a failed read reports, as the header check receives them. */
  const FailedRead: int := -1

  /** The header read check as written: `!count` rejects only a count of zero. */
  function ReadRejectedAsWritten(count: int): (rejected: bool)
    ensures rejected <==> count == 0
  {
    count == 0
  }

  /** The header read check as intended: anything but the full 88 bytes is a failure. */
  function ReadRejected(count: int): (rejected: bool)
    ensures rejected <==> count != HeaderSize
  {
    count != HeaderSize
  }

  /**
   * The header parse as written: a short file makes the read report -1, the
   * check lets that through, and the uninitialised bytes `garbage` are parsed
   * as if they were the header.
   */
  function ParseHeaderAsWritten(contents: Bytes, pos: nat, garbage: Bytes): (r: Option<Header>)
    requires |garbage| == HeaderSize
    ensures pos + HeaderSize <= |contents| ==> r == ParseHeaderAt(contents[pos..pos + HeaderSize], 0)
    ensures |contents| < pos + HeaderSize ==> r == ParseHeaderAt(garbage, 0)
  {
    var count := if pos + HeaderSize <= |contents| then HeaderSize else FailedRead;
    var raw := if count == HeaderSize then contents[pos..pos + HeaderSize] else garbage;
    if ReadRejectedAsWritten(count) then None else ParseHeaderAt(raw, 0)
  }

  /** The header parse as intended: a short file yields nothing. */
  function ParseHeaderFromFile(contents: Bytes, pos: nat): (r: Option<Header>)
    ensures |contents| < pos + HeaderSize ==> r == None
    ensures pos + HeaderSize <= |contents| ==> r == ParseHeaderAt(contents[pos..pos + HeaderSize], 0)
  {
    var count := if pos + HeaderSize <= |contents| then HeaderSize else FailedRead;
    if ReadRejected(count) then None else ParseHeaderAt(contents[pos..pos + HeaderSize], 0)
  }

  /** A failed read passes the check as written, but not the intended one. */
  lemma FailedReadPassesCheck()
    ensures !ReadRejectedAsWritten(FailedRead) && ReadRejected(FailedRead)
  {
  }

  /** An empty file whose indeterminate header buffer happens to hold a valid header is accepted as written. */
  lemma EmptyFileAcceptedAsWritten(h: Header)
    requires WellFormedHeader(h) && h.magic == Magic
    ensures ParseHeaderAsWritten([], 0, EncodeHeader(h)) == Some(h)
    ensures ParseHeaderFromFile([], 0) == None
  {
    var e := EncodeHeader(h);
    assert [] + e + [] == e;
    ParseHeaderEncode([], h, []);
  }

  // ---------------------------------------------------------------------
  // Texture use counts.

  /** How many patches in [lo, hi) carry texture t. */
  function CountIn(patches: seq<Patch>, lo: nat, hi: nat, t: int): (c: nat)
    requires lo <= hi <= |patches|
    ensures c <= hi - lo
    decreases hi - lo
  {
    if lo == hi then 0
    else (if patches[lo].texture == t then 1 else 0) + CountIn(patches, lo + 1, hi, t)
  }

  /** How many patches of node j carry texture t. */
  ghost function NodeUses(nodes: seq<Node>, patches: seq<Patch>, j: nat, t: int): nat
    requires WellFormedDag(nodes, patches) && j < |nodes|
  {
    PatchRangeInBounds(nodes, patches, j);
    CountIn(patches, nodes[j].firstPatch, PatchEnd(nodes, j), t)
  }

  /** How many patches of the loaded nodes below k carry texture t. */
  ghost function LoadedUses(nodes: seq<Node>, patches: seq<Patch>, loaded: set<int>, t: int, k: nat): nat
    requires WellFormedDag(nodes, patches) && k <= |nodes|
  {
    if k == 0 then 0
    else
      LoadedUses(nodes, patches, loaded, t, k - 1) +
      (if k - 1 in loaded then NodeUses(nodes, patches, k - 1, t) else 0)
  }

  /** Loading node n adds exactly n's uses to every texture's count. */
  lemma {:induction false} LoadedUsesAdd(nodes: seq<Node>, patches: seq<Patch>, loaded: set<int>, n: nat, t: int, k: nat)
    requires WellFormedDag(nodes, patches) && n < |nodes| && n !in loaded && k <= |nodes|
    ensures LoadedUses(nodes, patches, loaded + {n}, t, k) ==
      LoadedUses(nodes, patches, loaded, t, k) + (if n < k then NodeUses(nodes, patches, n, t) else 0)
  {
    if k > 0 {
      LoadedUsesAdd(nodes, patches, loaded, n, t, k - 1);
    }
  }

  /** Dropping a loaded node n takes exactly n's uses away from every texture's count. */
  lemma {:induction false} LoadedUsesRemove(nodes: seq<Node>, patches: seq<Patch>, loaded: set<int>, n: nat, t: int, k: nat)
    requires WellFormedDag(nodes, patches) && n < |nodes| && n in loaded && k <= |nodes|
    ensures LoadedUses(nodes, patches, loaded - {n}, t, k) + (if n < k then NodeUses(nodes, patches, n, t) else 0) ==
      LoadedUses(nodes, patches, loaded, t, k)
  {
    if k > 0 {
      LoadedUsesRemove(nodes, patches, loaded, n, t, k - 1);
    }
  }

  /** Every patch texture other than the no-texture marker names a texture of the table. */
  ghost predicate TextureRefsValid(patches: seq<Patch>, nTextures: nat)
  {
    forall p :: 0 <= p < |patches| ==> patches[p].texture == NoTexture || patches[p].texture < nTextures
  }

  // ---------------------------------------------------------------------
  // The data object.

  class NexusData {
    const file: NexusFile
    var header: Header
    var nodes: seq<Node>
    var patches: seq<Patch>
    var textures: seq<Texture>
    /** The RAM image of each node. */
    var nodeData: seq<NodeData>
    /** count_ram of each texture: how many patches of loaded nodes use it. */
    var countRam: seq<int>
    /** Whether each texture's memory is mapped. */
    var textureMapped: seq<bool>
    var nroots: nat
    /** LoadedNodes: the nodes currently in RAM. */
    var loaded: set<int>

    constructor (file: NexusFile)
      ensures this.file == file && loaded == {} && nodeData == [] && countRam == [] && textureMapped == []
    {
      this.file := file;
      header := Header(0, 0, 0, 0, Signature([], [], 0), 0, 0, 0, Sphere(F32(0), F32(0), F32(0), F32(0)));
      nodes := [];
      patches := [];
      textures := [];
      nodeData := [];
      countRam := [];
      textureMapped := [];
      nroots := 0;
      loaded := {};
    }

    /**
     * What holds between LoadIntoRam and DropFromRam calls: the tables form a
     * DAG, each node owns its own image, which holds memory exactly while the
     * node is loaded, and each texture's count is the number of patches of
     * loaded nodes that use it, the texture being mapped exactly while that
     * count is positive.
     */
    ghost predicate Valid()
      reads this, set i | 0 <= i < |nodeData| :: nodeData[i]
    {
      WellFormedDag(nodes, patches) &&
      |nodeData| == |nodes| &&
      (forall i, j :: 0 <= i < j < |nodeData| ==> nodeData[i] != nodeData[j]) &&
      (forall i :: 0 <= i < |nodeData| ==> (nodeData[i].memory != null <==> i in loaded)) &&
      (forall n :: n in loaded ==> 0 <= n < |nodes|) &&
      |textures| == header.nTextures && |countRam| == |textures| && |textureMapped| == |textures| &&
      (header.nTextures != 0 ==> TextureRefsValid(patches, header.nTextures)) &&
      (forall t :: 0 <= t < |textures| ==> countRam[t] == LoadedUses(nodes, patches, loaded, t, |nodes|)) &&
      (forall t :: 0 <= t < |textures| ==> (textureMapped[t] <==> countRam[t] > 0))
    }

    /**
     * ParseHeader: read 88 bytes through the file; fail when the read fails or
     * the magic number is wrong (setting only the magic field), otherwise set
     * every field from the bytes read.
     */
    method ParseHeader() returns (ok: bool)
      modifies this, file
      ensures nodes == old(nodes) && patches == old(patches) && textures == old(textures)
      ensures nodeData == old(nodeData) && countRam == old(countRam) && textureMapped == old(textureMapped)
      ensures nroots == old(nroots) && loaded == old(loaded)
      ensures ok <==> ParseHeaderFromFile(file.contents, old(file.pos)).Some?
      ensures ok ==> header == ParseHeaderFromFile(file.contents, old(file.pos)).value
      ensures ok ==> file.pos == old(file.pos) + HeaderSize
      ensures !ok && old(file.pos) + HeaderSize <= |file.contents| ==>
        header == old(header).(magic := Read32(file.contents[old(file.pos)..old(file.pos) + HeaderSize], 0).0)
      ensures |file.contents| < old(file.pos) + HeaderSize ==> header == old(header)
    {
      ghost var expected := ParseHeaderFromFile(file.contents, file.pos);
      var count, raw := file.Read(HeaderSize);
      if ReadRejected(count) {
        return false;
      }
      assert expected == ParseHeaderAt(raw, 0);
      var stop;
      ok, header, stop := DecodeHeaderAt(raw, 0, header);
    }

    /**
     * InitData: read n_nodes node records, n_patches patch records and
     * n_textures texture records through the file cursor, give every node an
     * empty image, and count the roots.  The file must hold well-formed
     * tables there; fileNodes and filePatches name them.
     */
    method InitData(ghost fileNodes: seq<Node>, ghost filePatches: seq<Patch>)
      requires |fileNodes| == header.nNodes && |filePatches| == header.nPatches
      requires NodeTableAt(file.contents, file.pos, fileNodes)
      requires PatchTableAt(file.contents, file.pos + NodeRecordSize * header.nNodes, filePatches)
      requires file.pos + NodeRecordSize * header.nNodes + PatchRecordSize * header.nPatches +
        TextureRecordSize * header.nTextures <= |file.contents|
      requires WellFormedDag(fileNodes, filePatches)
      requires header.nTextures != 0 ==> TextureRefsValid(filePatches, header.nTextures)
      modifies this, file
      ensures header == old(header) && Valid() && loaded == {}
      ensures nodes == fileNodes && patches == filePatches
      ensures TextureTableAt(file.contents,
        old(file.pos) + NodeRecordSize * header.nNodes + PatchRecordSize * header.nPatches, textures)
      ensures file.pos == old(file.pos) + NodeRecordSize * header.nNodes +
        PatchRecordSize * header.nPatches + TextureRecordSize * header.nTextures
      ensures forall i :: 0 <= i < |nodeData| ==> fresh(nodeData[i]) && nodeData[i].memory == null
      ensures IsRootCount(nodes, patches, nroots)
    {
      var ns, ps, ts, end := ReadTables(file.contents, file.pos, header.nNodes, header.nPatches,
        header.nTextures, fileNodes, filePatches);
      file.pos := end;
      SetTables(ns, ps, ts);
      nroots := CountRoots(ns, ps);
    }

    /**
     * The allocations of InitData: the tables read, one empty image per node,
     * and every texture unused and unmapped, with no node loaded.
     */
    method SetTables(ns: seq<Node>, ps: seq<Patch>, ts: seq<Texture>)
      requires WellFormedDag(ns, ps) && |ts| == header.nTextures
      requires header.nTextures != 0 ==> TextureRefsValid(ps, header.nTextures)
      modifies this
      ensures Valid() && loaded == {} && nodes == ns && patches == ps && textures == ts
      ensures header == old(header) && nroots == old(nroots)
      ensures forall i :: 0 <= i < |nodeData| ==> fresh(nodeData[i]) && nodeData[i].memory == null
    {
      var ds := NewNodeImages(|ns|);
      nodes, patches, textures, nodeData := ns, ps, ts, ds;
      countRam := seq(|textures|, _ => 0);
      textureMapped := seq(|textures|, _ => false);
      loaded := {};
      forall t | 0 <= t < |textures|
        ensures LoadedUses(nodes, patches, {}, t, |nodes|) == 0
      {
        NoneLoaded(nodes, patches, t, |nodes|);
      }
    }

    /**
     * LoadIntoRam(N): nothing when N is already loaded.  Otherwise an
     * uncompressed node maps its bytes from the file, a CORTO node gets a
     * fresh buffer of the decoded size and the decoder's output, and any
     * other compression returns without loading.  A loaded point cloud is
     * shuffled; every texture N's patches use gains one count per use and is
     * mapped when its count leaves zero; N joins the loaded set.
     *
     * begin and end are the node's byte range in the file, stored the
     * vertex attributes its bytes hold (after decoding when compressed), and
     * draws the shuffle's random choices.
     */
    method LoadIntoRam(n: nat, t: SigTraits, begin: nat, end: nat, stored: Views, draws: seq<nat>)
      requires Valid() && n < |nodes|
      requires n !in loaded && !t.compressed ==>
        begin + RealSize(t, nodes[n].nvert, nodes[n].nface) <= |file.contents|
      requires n !in loaded && t.compressed && t.corto ==> begin <= end <= |file.contents|
      requires n !in loaded && (!t.compressed || t.corto) && !t.hasIndex ==>
        ViewsFit(stored, t, nodes[n].nvert) && ValidDraws(draws, nodes[n].nvert)
      modifies this, file, nodeData[n]
      ensures Valid()
      ensures header == old(header) && nodes == old(nodes) && patches == old(patches)
      ensures textures == old(textures) && nodeData == old(nodeData) && nroots == old(nroots)
      ensures forall i :: 0 <= i < |nodeData| && i != n ==> nodeData[i].memory == old(nodeData[i].memory)
      ensures n in old(loaded) || (t.compressed && !t.corto) ==>
        loaded == old(loaded) && countRam == old(countRam) && textureMapped == old(textureMapped) &&
        nodeData[n].memory == old(nodeData[n].memory) && nodeData[n].AllViews() == old(nodeData[n].AllViews())
      ensures n !in old(loaded) && (!t.compressed || t.corto) ==>
        loaded == old(loaded) + {n} &&
        fresh(nodeData[n].memory) &&
        nodeData[n].memory.Length == RealSize(t, nodes[n].nvert, nodes[n].nface) &&
        (!t.compressed ==>
          nodeData[n].memory[..] == file.contents[begin..begin + RealSize(t, nodes[n].nvert, nodes[n].nface)]) &&
        nodeData[n].AllViews() == (if t.hasIndex then DecodedViews(stored, t)
          else ShuffledViews(DecodedViews(stored, t), ShuffledOrder(nodes[n].nvert, draws), t))
      ensures n !in old(loaded) && (!t.compressed || t.corto) ==>
        forall k :: 0 <= k < |textures| ==>
          countRam[k] == old(countRam[k]) + NodeUses(nodes, patches, n, k) &&
          (textureMapped[k] <==> old(textureMapped[k]) || NodeUses(nodes, patches, n, k) > 0)
    {
      if n in loaded {
        return;
      }
      var node := nodes[n];
      var done := LoadNodeImage(file, nodeData[n], t, node.nvert, node.nface, begin, end, stored, draws);
      if !done {
        return;
      }
      if header.nTextures != 0 {
        LoadTextures(n);
      }
      ghost var before := loaded;
      loaded := loaded + {n};
      forall k | 0 <= k < |textures|
        ensures countRam[k] == LoadedUses(nodes, patches, loaded, k, |nodes|)
      {
        LoadedUsesAdd(nodes, patches, before, n, k, |nodes|);
      }
    }

    /** The texture loop of LoadIntoRam: one count per patch use, mapping each texture whose count becomes 1. */
    method LoadTextures(n: nat)
      requires WellFormedDag(nodes, patches) && n < |nodes|
      requires |countRam| == |textures| && |textureMapped| == |textures|
      requires TextureRefsValid(patches, |textures|) && |textures| < 0x1_0000_0000
      requires forall k :: 0 <= k < |textures| ==> countRam[k] >= 0 && (textureMapped[k] <==> countRam[k] > 0)
      modifies this
      ensures header == old(header) && nodes == old(nodes) && patches == old(patches)
      ensures textures == old(textures) && nodeData == old(nodeData) && nroots == old(nroots)
      ensures loaded == old(loaded)
      ensures |countRam| == |textures| && |textureMapped| == |textures|
      ensures forall k :: 0 <= k < |textures| ==>
        countRam[k] == old(countRam[k]) + NodeUses(nodes, patches, n, k) &&
        (textureMapped[k] <==> countRam[k] > 0)
    {
      PatchRangeInBounds(nodes, patches, n);
      var first := nodes[n].firstPatch;
      var e := PatchEnd(nodes, n);
      var counts, mapped := countRam, textureMapped;
      var p := first;
      while p < e
        invariant first <= p <= e && |counts| == |textures| && |mapped| == |textures|
        invariant forall k :: 0 <= k < |textures| ==>
          counts[k] + CountIn(patches, p, e, k) == countRam[k] + CountIn(patches, first, e, k) &&
          counts[k] >= countRam[k] && (mapped[k] <==> counts[k] > 0)
      {
        var tex := patches[p].texture;
        assert forall k :: CountIn(patches, p, e, k) == (if tex == k then 1 else 0) + CountIn(patches, p + 1, e, k);
        if tex != NoTexture {
          counts := counts[tex := counts[tex] + 1];
          if counts[tex] <= 1 {
            mapped := mapped[tex := true];
          }
        }
        p := p + 1;
      }
      countRam, textureMapped := counts, mapped;
    }

    /**
     * DropFromRam(N): nothing when N is not loaded.  Otherwise the node's
     * memory is released, every texture N's patches use loses one count per
     * use and is released when its count reaches zero, and N leaves the
     * loaded set.
     */
    method DropFromRam(n: nat)
      requires Valid() && n < |nodes|
      modifies this, nodeData[n]
      ensures Valid()
      ensures header == old(header) && nodes == old(nodes) && patches == old(patches)
      ensures textures == old(textures) && nodeData == old(nodeData) && nroots == old(nroots)
      ensures forall i :: 0 <= i < |nodeData| && i != n ==> nodeData[i].memory == old(nodeData[i].memory)
      ensures nodeData[n].AllViews() == old(nodeData[n].AllViews())
      ensures n !in old(loaded) ==>
        loaded == old(loaded) && countRam == old(countRam) && textureMapped == old(textureMapped) &&
        nodeData[n].memory == old(nodeData[n].memory)
      ensures n in old(loaded) ==>
        loaded == old(loaded) - {n} && nodeData[n].memory == null &&
        forall k :: 0 <= k < |textures| ==>
          countRam[k] == old(countRam[k]) - NodeUses(nodes, patches, n, k) &&
          (textureMapped[k] <==> countRam[k] > 0)
    {
      if n !in loaded {
        return;
      }
      nodeData[n].memory := null;
      if header.nTextures != 0 {
        forall k | 0 <= k < |textures|
          ensures countRam[k] >= NodeUses(nodes, patches, n, k)
        {
          LoadedUsesRemove(nodes, patches, loaded, n, k, |nodes|);
        }
        DropTextures(n);
      }
      ghost var before := loaded;
      loaded := loaded - {n};
      forall k | 0 <= k < |textures|
        ensures countRam[k] == LoadedUses(nodes, patches, loaded, k, |nodes|)
      {
        LoadedUsesRemove(nodes, patches, before, n, k, |nodes|);
      }
    }

    /** The texture loop of DropFromRam: one count off per patch use, releasing each texture whose count reaches 0. */
    method DropTextures(n: nat)
      requires WellFormedDag(nodes, patches) && n < |nodes|
      requires |countRam| == |textures| && |textureMapped| == |textures|
      requires TextureRefsValid(patches, |textures|) && |textures| < 0x1_0000_0000
      requires forall k :: 0 <= k < |textures| ==>
        countRam[k] >= NodeUses(nodes, patches, n, k) && (textureMapped[k] <==> countRam[k] > 0)
      modifies this
      ensures header == old(header) && nodes == old(nodes) && patches == old(patches)
      ensures textures == old(textures) && nodeData == old(nodeData) && nroots == old(nroots)
      ensures loaded == old(loaded)
      ensures |countRam| == |textures| && |textureMapped| == |textures|
      ensures forall k :: 0 <= k < |textures| ==>
        countRam[k] == old(countRam[k]) - NodeUses(nodes, patches, n, k) &&
        (textureMapped[k] <==> countRam[k] > 0)
    {
      PatchRangeInBounds(nodes, patches, n);
      var first := nodes[n].firstPatch;
      var e := PatchEnd(nodes, n);
      var counts, mapped := countRam, textureMapped;
      var p := first;
      while p < e
        invariant first <= p <= e && |counts| == |textures| && |mapped| == |textures|
        invariant forall k :: 0 <= k < |textures| ==>
          counts[k] == countRam[k] - CountIn(patches, first, e, k) + CountIn(patches, p, e, k) &&
          counts[k] >= CountIn(patches, p, e, k) &&
          (mapped[k] <==> counts[k] > 0)
      {
        var tex := patches[p].texture;
        assert forall k :: CountIn(patches, p, e, k) == (if tex == k then 1 else 0) + CountIn(patches, p + 1, e, k);
        if tex != NoTexture {
          counts := counts[tex := counts[tex] - 1];
          if counts[tex] == 0 {
            mapped := mapped[tex := false];
          }
        }
        p := p + 1;
      }
      countRam, textureMapped := counts, mapped;
    }
  }

  /**
   * The node half of LoadIntoRam: an uncompressed node maps its bytes from
   * the file; a CORTO node has its compressed bytes read and gets a fresh
   * buffer of the decoded size holding the decoder's output; any other
   * compression leaves the image alone and reports failure.  A loaded point
   * cloud (no face index) is then shuffled.
   */
  method LoadNodeImage(file: NexusFile, d: NodeData, t: SigTraits, nvert: nat, nface: nat,
                       begin: nat, end: nat, stored: Views, draws: seq<nat>) returns (done: bool)
    requires !t.compressed ==> begin + RealSize(t, nvert, nface) <= |file.contents|
    requires t.compressed && t.corto ==> begin <= end <= |file.contents|
    requires (!t.compressed || t.corto) && !t.hasIndex ==> ViewsFit(stored, t, nvert) && ValidDraws(draws, nvert)
    modifies file, d
    ensures done <==> !t.compressed || t.corto
    ensures !done ==> d.memory == old(d.memory) && d.AllViews() == old(d.AllViews())
    ensures done ==>
      d.memory != null && fresh(d.memory) && d.memory.Length == RealSize(t, nvert, nface) &&
      (!t.compressed ==> d.memory[..] == file.contents[begin..begin + RealSize(t, nvert, nface)]) &&
      d.AllViews() == (if t.hasIndex then DecodedViews(stored, t)
        else ShuffledViews(DecodedViews(stored, t), ShuffledOrder(nvert, draws), t))
  {
    var size := RealSize(t, nvert, nface);
    if !t.compressed {
      var region := file.Map(begin, size);
      d.memory := region;
    } else if t.corto {
      file.Seek(begin);
      var bytesRead, compressed := file.Read(end - begin);
      d.memory := new U8[size];
    } else {
      return false;
    }
    var v := DecodedViews(stored, t);
    d.coords, d.normals, d.colors := v.coords, v.normals, v.colors;
    if !t.hasIndex {
      ShuffleVertices(d, t, nvert, draws);
    }
    return true;
  }

  /**
   * The three table loops of InitData: node, patch and texture records one
   * after the other from the cursor.  Where the file holds well-formed
   * tables, the nodes and patches read are those tables.
   */
  method ReadTables(buf: Bytes, pos: nat, nNodes: nat, nPatches: nat, nTextures: nat,
                    ghost fileNodes: seq<Node>, ghost filePatches: seq<Patch>)
    returns (nodes: seq<Node>, patches: seq<Patch>, textures: seq<Texture>, end: nat)
    requires |fileNodes| == nNodes && |filePatches| == nPatches
    requires NodeTableAt(buf, pos, fileNodes)
    requires PatchTableAt(buf, pos + NodeRecordSize * nNodes, filePatches)
    requires pos + NodeRecordSize * nNodes + PatchRecordSize * nPatches + TextureRecordSize * nTextures <= |buf|
    ensures nodes == fileNodes && patches == filePatches && |textures| == nTextures
    ensures TextureTableAt(buf, pos + NodeRecordSize * nNodes + PatchRecordSize * nPatches, textures)
    ensures end == pos + NodeRecordSize * nNodes + PatchRecordSize * nPatches + TextureRecordSize * nTextures
  {
    var p := pos;
    nodes, p := ReadNodeTable(buf, p, nNodes);
    NodeTableAtUnique(buf, pos, nodes, fileNodes);
    patches, p := ReadPatchTable(buf, p, nPatches);
    PatchTableAtUnique(buf, pos + NodeRecordSize * nNodes, patches, filePatches);
    textures, end := ReadTextureTable(buf, p, nTextures);
  }

  /** One empty node image per node (`new NodeData[n]`). */
  method NewNodeImages(n: nat) returns (ds: seq<NodeData>)
    ensures |ds| == n
    ensures forall i :: 0 <= i < n ==> fresh(ds[i]) && ds[i].memory == null
    ensures forall i, j :: 0 <= i < j < n ==> ds[i] != ds[j]
  {
    ds := [];
    while |ds| < n
      invariant |ds| <= n
      invariant forall i :: 0 <= i < |ds| ==> fresh(ds[i]) && ds[i].memory == null
      invariant forall i, j :: 0 <= i < j < |ds| ==> ds[i] != ds[j]
    {
      var d := new NodeData();
      ds := ds + [d];
    }
  }

  /** With nothing loaded, no texture is in use. */
  lemma {:induction false} NoneLoaded(nodes: seq<Node>, patches: seq<Patch>, t: int, k: nat)
    requires WellFormedDag(nodes, patches) && k <= |nodes|
    ensures LoadedUses(nodes, patches, {}, t, k) == 0
  {
    if k > 0 {
      NoneLoaded(nodes, patches, t, k - 1);
    }
  }
}
