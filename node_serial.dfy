/**
 * The archive form of one node asset (UUnrealNexusNodeData): the 32-bit
 * NodeSize, then one 16-bit word per byte of the node's memory.  The same
 * routine saves (the archive receives the words) and loads (the words are
 * read back into memory, which is allocated first when the node has none).
 */
module NodeSerial {
  import opened Wire
  import opened NodeDecode

  /**
   * FArchive as the serialiser uses it: a direction and a byte stream.  A
   * saving archive appends at its end; a loading archive reads at `pos`.
   */
  class Archive {
    const loading: bool
    var stream: Bytes
    var pos: nat

    constructor (loading: bool, stream: Bytes)
      ensures this.loading == loading && this.stream == stream && pos == 0
    {
      this.loading := loading;
      this.stream := stream;
      pos := 0;
    }
  }

  /** A node asset: the node's RAM image and its byte size. */
  class NodeAsset {
    var data: NodeData
    var nodeSize: U32

    constructor (data: NodeData, nodeSize: U32)
      ensures this.data == data && this.nodeSize == nodeSize
    {
      this.data := data;
      this.nodeSize := nodeSize;
    }
  }

  /**
   * `UINT16 Index = memory[i]`: memory holds plain `char`, which is signed, so
   * a byte of 0x80 or more is sign-extended into the high byte.
   */
  function Widen(b: U8): (w: U16)
    ensures w % 0x100 == b
    ensures b < 0x80 ==> w == b
    ensures b >= 0x80 ==> w / 0x100 == 0xFF
  {
    if b < 0x80 then b else b + 0xFF00
  }

  /** `memory[i] = Index`: the word is truncated back to its low byte. */
  function Narrow(w: U16): (b: U8)
    ensures b == w % 0x100
  {
    w % 0x100
  }

  /** The words a save writes for `bytes`: two little-endian bytes per byte, in index order. */
  function WordsImage(bytes: seq<U8>): (s: Bytes)
    ensures |s| == 2 * |bytes|
  {
    if |bytes| == 0 then []
    else WordsImage(bytes[..|bytes| - 1]) + Encode(Widen(bytes[|bytes| - 1]), 2)
  }

  /** Everything a save appends: the size word first, then the words of the first `size` bytes. */
  function SavedImage(size: U32, bytes: seq<U8>): (s: Bytes)
    requires size <= |bytes|
    ensures |s| == 4 + 2 * size
    ensures s[..4] == Encode(size, 4)
  {
    Encode(size, 4) + WordsImage(bytes[..size])
  }

  /** The bytes a load stores from k words starting at pos. */
  function LoadedBytes(stream: Bytes, pos: nat, k: nat): (bytes: seq<U8>)
    requires pos + 2 * k <= |stream|
    ensures |bytes| == k
  {
    if k == 0 then []
    else LoadedBytes(stream, pos, k - 1) + [Narrow(Read16(stream, pos + 2 * (k - 1)).0)]
  }

  /** Loading the words of a save gives back the saved bytes, whatever surrounds them. */
  lemma {:induction false} LoadSavedWords(pre: Bytes, bytes: seq<U8>, post: Bytes)
    ensures LoadedBytes(pre + WordsImage(bytes) + post, |pre|, |bytes|) == bytes
    decreases |bytes|
  {
    if |bytes| > 0 {
      var n := |bytes| - 1;
      var init := bytes[..n];
      var w := Widen(bytes[n]);
      var tail := Encode(w, 2) + post;
      assert pre + WordsImage(bytes) + post == pre + WordsImage(init) + tail;
      LoadSavedWords(pre, init, tail);
      assert pre + WordsImage(bytes) + post == (pre + WordsImage(init)) + Encode(w, 2) + post;
      Read16Encode(pre + WordsImage(init), w, post);
      assert bytes == init + [bytes[n]];
    }
  }

  /** Save then load: the size word and every byte come back unchanged. */
  lemma SaveLoadRoundTrip(pre: Bytes, size: U32, bytes: seq<U8>, post: Bytes)
    requires size <= |bytes|
    ensures var s := pre + SavedImage(size, bytes) + post;
      |pre| + 4 <= |s| && Read32(s, |pre|).0 == size &&
      |pre| + 4 + 2 * size <= |s| &&
      LoadedBytes(s, |pre| + 4, size) == bytes[..size]
  {
    var s := pre + SavedImage(size, bytes) + post;
    Read32Encode(pre, size, WordsImage(bytes[..size]) + post);
    assert s == pre + Encode(size, 4) + (WordsImage(bytes[..size]) + post);
    assert s == (pre + Encode(size, 4)) + WordsImage(bytes[..size]) + post;
    LoadSavedWords(pre + Encode(size, 4), bytes[..size], post);
  }

  /**
   * SerializeNodeData.  Saving appends SavedImage and leaves memory as it was
   * (byte to word to byte is the identity).  Loading reads the size word,
   * allocates memory of that size when there is none, and stores the low
   * byte of each of the following words.
   */
  method SerializeNodeData(ar: Archive, asset: NodeAsset)
    requires !ar.loading ==> asset.data.memory == null || asset.nodeSize <= asset.data.memory.Length
    requires ar.loading ==>
      ar.pos + 4 <= |ar.stream| &&
      ar.pos + 4 + 2 * Read32(ar.stream, ar.pos).0 <= |ar.stream| &&
      (asset.data.memory != null ==> Read32(ar.stream, ar.pos).0 <= asset.data.memory.Length)
    modifies ar, asset, asset.data, asset.data.memory
    ensures asset.data == old(asset.data)
    ensures asset.data.AllViews() == old(asset.data.AllViews())
    ensures asset.data.memory != null && asset.nodeSize <= asset.data.memory.Length
    ensures old(asset.data.memory) == null ==>
      fresh(asset.data.memory) && asset.data.memory.Length == asset.nodeSize
    ensures old(asset.data.memory) != null ==> asset.data.memory == old(asset.data.memory)
    ensures !ar.loading ==>
      asset.nodeSize == old(asset.nodeSize) && ar.pos == old(ar.pos) &&
      ar.stream == old(ar.stream) + SavedImage(asset.nodeSize, asset.data.memory[..])
    ensures !ar.loading && old(asset.data.memory) != null ==>
      asset.data.memory[..] == old(asset.data.memory[..])
    ensures ar.loading ==>
      ar.stream == old(ar.stream) &&
      asset.nodeSize == Read32(ar.stream, old(ar.pos)).0 &&
      ar.pos == old(ar.pos) + 4 + 2 * asset.nodeSize &&
      asset.data.memory[..asset.nodeSize] == LoadedBytes(ar.stream, old(ar.pos) + 4, asset.nodeSize)
    ensures ar.loading && old(asset.data.memory) != null ==>
      forall k :: asset.nodeSize <= k < asset.data.memory.Length ==>
        asset.data.memory[k] == old(asset.data.memory[k])
  {
    // Archive << NodeSize
    if ar.loading {
      var r := Read32(ar.stream, ar.pos);
      asset.nodeSize := r.0;
      ar.pos := r.1;
    } else {
      ar.stream := ar.stream + Encode(asset.nodeSize, 4);
    }
    var d := asset.data;
    if d.memory == null {
      d.memory := new U8[asset.nodeSize];
    }
    if ar.loading {
      LoadWords(ar, d.memory, asset.nodeSize);
    } else {
      SaveWords(ar, d.memory, asset.nodeSize);
    }
  }

  /** The save half of the byte loop: each byte goes out as its widened word and is written back unchanged. */
  method SaveWords(ar: Archive, memory: array<U8>, size: nat)
    requires !ar.loading && size <= memory.Length
    modifies ar, memory
    ensures ar.pos == old(ar.pos) && memory[..] == old(memory[..])
    ensures ar.stream == old(ar.stream) + WordsImage(memory[..size])
  {
    var i: nat := 0;
    while i < size
      invariant i <= size
      invariant ar.pos == old(ar.pos) && memory[..] == old(memory[..])
      invariant ar.stream == old(ar.stream) + WordsImage(memory[..i])
    {
      var index := Widen(memory[i]);
      assert memory[..i + 1] == memory[..i] + [memory[i]];
      ar.stream := ar.stream + Encode(index, 2);
      memory[i] := Narrow(index);
      i := i + 1;
    }
  }

  /** The load half of the byte loop: each word read is truncated into the next byte of memory. */
  method LoadWords(ar: Archive, memory: array<U8>, size: nat)
    requires ar.loading && size <= memory.Length && ar.pos + 2 * size <= |ar.stream|
    modifies ar, memory
    ensures ar.stream == old(ar.stream) && ar.pos == old(ar.pos) + 2 * size
    ensures memory[..size] == LoadedBytes(ar.stream, old(ar.pos), size)
    ensures memory[size..] == old(memory[size..])
  {
    var i: nat := 0;
    while i < size
      invariant i <= size
      invariant ar.stream == old(ar.stream) && ar.pos == old(ar.pos) + 2 * i
      invariant memory[..i] == LoadedBytes(ar.stream, old(ar.pos), i)
      invariant memory[i..] == old(memory[i..])
    {
      var r := Read16(ar.stream, ar.pos);
      var index := r.0;
      ar.pos := r.1;
      memory[i] := Narrow(index);
      assert memory[..i + 1] == memory[..i] + [memory[i]];
      i := i + 1;
    }
  }
}
