/**
 * The fixed-size records of a Nexus file and their cursor readers
 * (DataUtils::ReadAttribute, ReadSignature, ReadNode, ReadPatch, ReadTexture
 * and the header fields).  Each reader is specified by a layout predicate that
 * places every field at its absolute byte offset, and each has an encoder
 * whose output it reads back unchanged.
 */
module Records {
  import opened Wire

  const HeaderSize: nat := 88
  const Magic: U32 := 0x4E787320
  const SignatureSize: nat := 36
  const NodeRecordSize: nat := 44
  const PatchRecordSize: nat := 12
  const TextureRecordSize: nat := 68
  /** The texture index of a patch that has no texture. */
  const NoTexture: U32 := 0xFFFF_FFFF

  datatype Option<T> = None | Some(value: T)

  /** A vertex or face attribute: its component type and component count, one byte each. */
  datatype Attribute = Attribute(kind: U8, number: U8)

  /** Eight vertex attributes, eight face attributes and the flag word. */
  datatype Signature = Signature(vertex: seq<Attribute>, face: seq<Attribute>, flags: U32)

  /** A bounding sphere: centre x, y, z and radius. */
  datatype Sphere = Sphere(x: F32, y: F32, z: F32, radius: F32)

  datatype Header = Header(
    magic: U32, version: U32, nvert: U64, nface: U64, signature: Signature,
    nNodes: U32, nPatches: U32, nTextures: U32, sphere: Sphere)

  /** A node of the patch DAG; cone holds four signed shorts. */
  datatype Node = Node(
    offset: U32, nvert: U16, nface: U16, error: F32, cone: seq<int>,
    sphere: Sphere, tightRadius: F32, firstPatch: U32)

  /** An edge of the DAG: the child node, the end of its triangle run, its texture. */
  datatype Patch = Patch(node: U32, triangleOffset: U32, texture: U32)

  /** A texture: its offset and a 4x4 projection matrix. */
  datatype Texture = Texture(offset: U32, matrix: seq<F32>)

  ghost predicate WellFormedSignature(s: Signature)
  {
    |s.vertex| == 8 && |s.face| == 8
  }

  ghost predicate WellFormedNode(n: Node)
  {
    |n.cone| == 4 && forall i :: 0 <= i < 4 ==> -0x8000 <= n.cone[i] < 0x8000
  }

  ghost predicate WellFormedTexture(t: Texture)
  {
    |t.matrix| == 16
  }

  ghost predicate WellFormedHeader(h: Header)
  {
    WellFormedSignature(h.signature)
  }

  // ---------------------------------------------------------------------
  // Layouts: where each field sits, relative to the start of the record.

  ghost function U32At(buf: Bytes, pos: nat): nat
    requires pos + 4 <= |buf|
  {
    LittleEndian(buf[pos..pos + 4])
  }

  ghost function U16At(buf: Bytes, pos: nat): U16
    requires pos + 2 <= |buf|
  {
    LittleEndianBound(buf[pos..pos + 2]);
    assert Pow256(2) == 0x1_0000;
    LittleEndian(buf[pos..pos + 2])
  }

  ghost predicate AttributesAt(buf: Bytes, pos: nat, attrs: seq<Attribute>)
  {
    pos + 2 * |attrs| <= |buf| &&
    forall i :: 0 <= i < |attrs| ==> attrs[i] == Attribute(buf[pos + 2 * i], buf[pos + 2 * i + 1])
  }

  ghost predicate FloatsAt(buf: Bytes, pos: nat, fs: seq<F32>)
  {
    pos + 4 * |fs| <= |buf| &&
    forall i :: 0 <= i < |fs| ==> fs[i].bits == U32At(buf, pos + 4 * i)
  }

  ghost predicate SphereAt(buf: Bytes, pos: nat, s: Sphere)
  {
    FloatsAt(buf, pos, [s.x, s.y, s.z, s.radius])
  }

  ghost predicate SignatureAt(buf: Bytes, pos: nat, s: Signature)
  {
    pos + SignatureSize <= |buf| && WellFormedSignature(s) &&
    AttributesAt(buf, pos, s.vertex) && AttributesAt(buf, pos + 16, s.face) &&
    s.flags == U32At(buf, pos + 32)
  }

  ghost predicate NodeAt(buf: Bytes, pos: nat, n: Node)
  {
    pos + NodeRecordSize <= |buf| && WellFormedNode(n) &&
    n.offset == U32At(buf, pos) &&
    n.nvert == U16At(buf, pos + 4) &&
    n.nface == U16At(buf, pos + 6) &&
    n.error.bits == U32At(buf, pos + 8) &&
    (forall i :: 0 <= i < 4 ==>
      n.cone[i] == AsShort(U16At(buf, pos + 12 + 2 * i))) &&
    SphereAt(buf, pos + 20, n.sphere) &&
    n.tightRadius.bits == U32At(buf, pos + 36) &&
    n.firstPatch == U32At(buf, pos + 40)
  }

  ghost predicate PatchAt(buf: Bytes, pos: nat, p: Patch)
  {
    pos + PatchRecordSize <= |buf| &&
    p.node == U32At(buf, pos) &&
    p.triangleOffset == U32At(buf, pos + 4) &&
    p.texture == U32At(buf, pos + 8)
  }

  ghost predicate TextureAt(buf: Bytes, pos: nat, t: Texture)
  {
    pos + TextureRecordSize <= |buf| && WellFormedTexture(t) &&
    t.offset == U32At(buf, pos) && FloatsAt(buf, pos + 4, t.matrix)
  }

  /** The 84 bytes of the header that follow the magic word. */
  ghost predicate HeaderBodyAt(buf: Bytes, pos: nat, h: Header)
  {
    pos + HeaderSize <= |buf| &&
    h.version == U32At(buf, pos + 4) &&
    h.nvert == LittleEndian(buf[pos + 8..pos + 16]) &&
    h.nface == LittleEndian(buf[pos + 16..pos + 24]) &&
    SignatureAt(buf, pos + 24, h.signature) &&
    h.nNodes == U32At(buf, pos + 60) &&
    h.nPatches == U32At(buf, pos + 64) &&
    h.nTextures == U32At(buf, pos + 68) &&
    SphereAt(buf, pos + 72, h.sphere)
  }

  ghost predicate HeaderAt(buf: Bytes, pos: nat, h: Header)
  {
    pos + HeaderSize <= |buf| && h.magic == U32At(buf, pos) && HeaderBodyAt(buf, pos, h)
  }

  // ---------------------------------------------------------------------
  // Readers.

  /** ReadAttribute: the type byte, then the count byte. */
  function ReadAttribute(buf: Bytes, pos: nat): (r: (Attribute, nat))
    requires pos + 2 <= |buf|
    ensures r.1 == pos + 2
    ensures AttributesAt(buf, pos, [r.0])
  {
    var (kind, p1) := Read8(buf, pos);
    var (number, p2) := Read8(buf, p1);
    (Attribute(kind, number), p2)
  }

  /** k consecutive attributes, as the two eight-step loops of ReadSignature read them. */
  function ReadAttributes(buf: Bytes, pos: nat, k: nat): (r: (seq<Attribute>, nat))
    requires pos + 2 * k <= |buf|
    ensures r.1 == pos + 2 * k && |r.0| == k
    ensures AttributesAt(buf, pos, r.0)
    decreases k
  {
    if k == 0 then ([], pos)
    else
      var (a, p) := ReadAttribute(buf, pos);
      var (rest, q) := ReadAttributes(buf, p, k - 1);
      ([a] + rest, q)
  }

  /** k consecutive floats, as the matrix loop of ReadTexture reads them. */
  function ReadFloats(buf: Bytes, pos: nat, k: nat): (r: (seq<F32>, nat))
    requires pos + 4 * k <= |buf|
    ensures r.1 == pos + 4 * k && |r.0| == k
    ensures FloatsAt(buf, pos, r.0)
    decreases k
  {
    if k == 0 then ([], pos)
    else
      var (f, p) := ReadFloat(buf, pos);
      var (rest, q) := ReadFloats(buf, p, k - 1);
      ([f] + rest, q)
  }

  /** Centre x, y, z then radius, in that order. */
  function ReadSphere(buf: Bytes, pos: nat): (r: (Sphere, nat))
    requires pos + 16 <= |buf|
    ensures r.1 == pos + 16
    ensures SphereAt(buf, pos, r.0)
  {
    var (fs, p) := ReadFloats(buf, pos, 4);
    (Sphere(fs[0], fs[1], fs[2], fs[3]), p)
  }

  /** ReadSignature: 8 vertex attributes, 8 face attributes, the flags. */
  function ReadSignature(buf: Bytes, pos: nat): (r: (Signature, nat))
    requires pos + SignatureSize <= |buf|
    ensures r.1 == pos + SignatureSize
    ensures SignatureAt(buf, pos, r.0)
  {
    var (vertex, p1) := ReadAttributes(buf, pos, 8);
    var (face, p2) := ReadAttributes(buf, p1, 8);
    var (flags, p3) := Read32(buf, p2);
    (Signature(vertex, face, flags), p3)
  }

  /** The normal cone of a node: four ReadShort calls. */
  function ReadCone(buf: Bytes, pos: nat): (r: (seq<int>, nat))
    requires pos + 8 <= |buf|
    ensures r.1 == pos + 8 && |r.0| == 4
    ensures forall i :: 0 <= i < 4 ==> r.0[i] == AsShort(U16At(buf, pos + 2 * i))
  {
    var (c0, p1) := ReadShort(buf, pos);
    var (c1, p2) := ReadShort(buf, p1);
    var (c2, p3) := ReadShort(buf, p2);
    var (c3, p4) := ReadShort(buf, p3);
    ([c0, c1, c2, c3], p4)
  }

  /** ReadNode: the 44-byte node record. */
  function ReadNode(buf: Bytes, pos: nat): (r: (Node, nat))
    requires pos + NodeRecordSize <= |buf|
    ensures r.1 == pos + NodeRecordSize
    ensures NodeAt(buf, pos, r.0)
  {
    var (offset, p1) := Read32(buf, pos);
    var (nvert, p2) := Read16(buf, p1);
    var (nface, p3) := Read16(buf, p2);
    var (error, p4) := ReadFloat(buf, p3);
    var (cone, p5) := ReadCone(buf, p4);
    var (sphere, p6) := ReadSphere(buf, p5);
    var (tight, p7) := ReadFloat(buf, p6);
    var (firstPatch, p8) := Read32(buf, p7);
    (Node(offset, nvert, nface, error, cone, sphere, tight, firstPatch), p8)
  }

  /** ReadPatch: child node, triangle offset, texture. */
  function ReadPatch(buf: Bytes, pos: nat): (r: (Patch, nat))
    requires pos + PatchRecordSize <= |buf|
    ensures r.1 == pos + PatchRecordSize
    ensures PatchAt(buf, pos, r.0)
  {
    var (node, p1) := Read32(buf, pos);
    var (triangleOffset, p2) := Read32(buf, p1);
    var (texture, p3) := Read32(buf, p2);
    (Patch(node, triangleOffset, texture), p3)
  }

  /** ReadTexture: the offset, then the 16 matrix entries. */
  function ReadTexture(buf: Bytes, pos: nat): (r: (Texture, nat))
    requires pos + TextureRecordSize <= |buf|
    ensures r.1 == pos + TextureRecordSize
    ensures TextureAt(buf, pos, r.0)
  {
    var (offset, p1) := Read32(buf, pos);
    var (matrix, p2) := ReadFloats(buf, p1, 16);
    (Texture(offset, matrix), p2)
  }

  /**
   * The header fields after the magic word, in file order: version, vertex
   * and face counts, signature, node, patch and texture counts, sphere.
   * pos is the start of the header; the magic word read before is passed in.
   */
  function ReadHeaderBody(buf: Bytes, pos: nat, magic: U32): (r: (Header, nat))
    requires pos + HeaderSize <= |buf|
    ensures r.1 == pos + HeaderSize
    ensures r.0.magic == magic && HeaderBodyAt(buf, pos, r.0)
  {
    var (version, p1) := Read32(buf, pos + 4);
    var (nvert, p2) := Read64(buf, p1);
    var (nface, p3) := Read64(buf, p2);
    var (signature, p4) := ReadSignature(buf, p3);
    var (nNodes, p5) := Read32(buf, p4);
    var (nPatches, p6) := Read32(buf, p5);
    var (nTextures, p7) := Read32(buf, p6);
    var (sphere, p8) := ReadSphere(buf, p7);
    (Header(magic, version, nvert, nface, signature, nNodes, nPatches, nTextures, sphere), p8)
  }

  // ---------------------------------------------------------------------
  // Encoders, each the inverse of its reader.

  function EncodeF32(f: F32): (s: Bytes)
    ensures |s| == 4
  {
    Encode(f.bits, 4)
  }

  function EncodeAttributes(attrs: seq<Attribute>): (s: Bytes)
    ensures |s| == 2 * |attrs|
  {
    if |attrs| == 0 then [] else [attrs[0].kind, attrs[0].number] + EncodeAttributes(attrs[1..])
  }

  function EncodeFloats(fs: seq<F32>): (s: Bytes)
    ensures |s| == 4 * |fs|
  {
    if |fs| == 0 then [] else EncodeF32(fs[0]) + EncodeFloats(fs[1..])
  }

  function EncodeSphere(s: Sphere): (e: Bytes)
    ensures |e| == 16
  {
    EncodeFloats([s.x, s.y, s.z, s.radius])
  }

  function EncodeSignature(s: Signature): (e: Bytes)
    requires WellFormedSignature(s)
    ensures |e| == SignatureSize
  {
    EncodeAttributes(s.vertex) + EncodeAttributes(s.face) + Encode(s.flags, 4)
  }

  function EncodeNode(n: Node): (e: Bytes)
    requires WellFormedNode(n)
    ensures |e| == NodeRecordSize
  {
    Encode(n.offset, 4) + Encode(n.nvert, 2) + Encode(n.nface, 2) + EncodeF32(n.error)
    + EncodeCone(n.cone) + (EncodeSphere(n.sphere) + EncodeF32(n.tightRadius) + Encode(n.firstPatch, 4))
  }

  function EncodeCone(cone: seq<int>): (e: Bytes)
    requires |cone| == 4 && forall i :: 0 <= i < 4 ==> -0x8000 <= cone[i] < 0x8000
    ensures |e| == 8
  {
    Encode(ShortBits(cone[0]), 2) + Encode(ShortBits(cone[1]), 2)
    + Encode(ShortBits(cone[2]), 2) + Encode(ShortBits(cone[3]), 2)
  }

  function EncodePatch(p: Patch): (e: Bytes)
    ensures |e| == PatchRecordSize
  {
    Encode(p.node, 4) + Encode(p.triangleOffset, 4) + Encode(p.texture, 4)
  }

  function EncodeTexture(t: Texture): (e: Bytes)
    requires WellFormedTexture(t)
    ensures |e| == TextureRecordSize
  {
    Encode(t.offset, 4) + EncodeFloats(t.matrix)
  }

  function EncodeHeader(h: Header): (e: Bytes)
    requires WellFormedHeader(h)
    ensures |e| == HeaderSize
  {
    (Encode(h.magic, 4) + Encode(h.version, 4) + Encode(h.nvert, 8) + Encode(h.nface, 8))
    + EncodeSignature(h.signature)
    + (Encode(h.nNodes, 4) + Encode(h.nPatches, 4) + Encode(h.nTextures, 4) + EncodeSphere(h.sphere))
  }

  // ---------------------------------------------------------------------
  // Round trips.

  /** A piece of an embedded encoding, seen through the surrounding buffer. */
  lemma FieldAt(pre: Bytes, e: Bytes, post: Bytes, k: nat, v: nat, w: nat)
    requires k + w <= |e| && v < Pow256(w) && e[k..k + w] == Encode(v, w)
    ensures LittleEndian((pre + e + post)[|pre| + k..|pre| + k + w]) == v
  {
    assert (pre + e + post)[|pre| + k..|pre| + k + w] == e[k..k + w];
    DecodeEncode(v, w);
  }

  lemma {:induction false} AttributesRoundTrip(pre: Bytes, attrs: seq<Attribute>, post: Bytes)
    ensures AttributesAt(pre + EncodeAttributes(attrs) + post, |pre|, attrs)
    decreases |attrs|
  {
    if |attrs| > 0 {
      var head := [attrs[0].kind, attrs[0].number];
      assert pre + EncodeAttributes(attrs) + post == (pre + head) + EncodeAttributes(attrs[1..]) + post;
      AttributesRoundTrip(pre + head, attrs[1..], post);
    }
  }

  lemma {:induction false} FloatsRoundTrip(pre: Bytes, fs: seq<F32>, post: Bytes)
    ensures FloatsAt(pre + EncodeFloats(fs) + post, |pre|, fs)
    decreases |fs|
  {
    if |fs| > 0 {
      var buf := pre + EncodeFloats(fs) + post;
      assert buf == (pre + EncodeF32(fs[0])) + EncodeFloats(fs[1..]) + post;
      FloatsRoundTrip(pre + EncodeF32(fs[0]), fs[1..], post);
      assert Pow256(4) == 0x1_0000_0000;
      FieldAt(pre, EncodeFloats(fs), post, 0, fs[0].bits, 4);
    }
  }

  /** A sequence embedded in another: sub at offset k of e, e at |pre| of the buffer. */
  lemma Embedded(pre: Bytes, e: Bytes, post: Bytes, k: nat, sub: Bytes)
    requires k + |sub| <= |e| && e[k..k + |sub|] == sub
    ensures pre + e + post == (pre + e[..k]) + sub + (e[k + |sub|..] + post)
  {
    assert e == e[..k] + sub + e[k + |sub|..];
  }

  lemma SignatureRoundTrip(pre: Bytes, s: Signature, post: Bytes)
    requires WellFormedSignature(s)
    ensures SignatureAt(pre + EncodeSignature(s) + post, |pre|, s)
  {
    var e := EncodeSignature(s);
    Embedded(pre, e, post, 0, EncodeAttributes(s.vertex));
    AttributesRoundTrip(pre + e[..0], s.vertex, e[16..] + post);
    Embedded(pre, e, post, 16, EncodeAttributes(s.face));
    AttributesRoundTrip(pre + e[..16], s.face, e[32..] + post);
    assert Pow256(4) == 0x1_0000_0000;
    FieldAt(pre, e, post, 32, s.flags, 4);
  }

  lemma SphereRoundTrip(pre: Bytes, s: Sphere, post: Bytes)
    ensures SphereAt(pre + EncodeSphere(s) + post, |pre|, s)
  {
    FloatsRoundTrip(pre, [s.x, s.y, s.z, s.radius], post);
  }

  lemma NodeLayoutRoundTrip(pre: Bytes, n: Node, post: Bytes)
    requires WellFormedNode(n)
    ensures NodeAt(pre + EncodeNode(n) + post, |pre|, n)
  {
    var e := EncodeNode(n);
    var buf := pre + e + post;
    var head := Encode(n.offset, 4) + Encode(n.nvert, 2) + Encode(n.nface, 2) + EncodeF32(n.error);
    var cone := EncodeCone(n.cone);
    var tail := EncodeSphere(n.sphere) + EncodeF32(n.tightRadius) + Encode(n.firstPatch, 4);
    assert e == head + cone + tail;
    assert Pow256(2) == 0x1_0000 && Pow256(4) == 0x1_0000_0000;
    HeadAt(pre, n, cone + tail + post);
    assert buf == pre + head + (cone + tail + post);
    Embedded(pre, e, post, 12, cone);
    ConeAt(pre + e[..12], n.cone, e[20..] + post);
    Embedded(pre, e, post, 20, tail);
    TailAt(pre + e[..20], n, e[44..] + post);
  }

  lemma ConeAt(pre: Bytes, cone: seq<int>, post: Bytes)
    requires |cone| == 4 && forall i :: 0 <= i < 4 ==> -0x8000 <= cone[i] < 0x8000
    ensures var buf := pre + EncodeCone(cone) + post;
      |buf| >= |pre| + 8 && forall i :: 0 <= i < 4 ==> cone[i] == AsShort(U16At(buf, |pre| + 2 * i))
  {
    var e := EncodeCone(cone);
    assert Pow256(2) == 0x1_0000;
    forall i | 0 <= i < 4
      ensures cone[i] == AsShort(U16At(pre + e + post, |pre| + 2 * i))
    {
      FieldAt(pre, e, post, 2 * i, ShortBits(cone[i]), 2);
    }
  }

  lemma HeadAt(pre: Bytes, n: Node, post: Bytes)
    ensures var buf := pre + (Encode(n.offset, 4) + Encode(n.nvert, 2) + Encode(n.nface, 2) + EncodeF32(n.error)) + post;
      |buf| >= |pre| + 12 &&
      n.offset == U32At(buf, |pre|) && n.nvert == U16At(buf, |pre| + 4) &&
      n.nface == U16At(buf, |pre| + 6) && n.error.bits == U32At(buf, |pre| + 8)
  {
    var e := Encode(n.offset, 4) + Encode(n.nvert, 2) + Encode(n.nface, 2) + EncodeF32(n.error);
    assert Pow256(2) == 0x1_0000 && Pow256(4) == 0x1_0000_0000;
    FieldAt(pre, e, post, 0, n.offset, 4);
    FieldAt(pre, e, post, 4, n.nvert, 2);
    FieldAt(pre, e, post, 6, n.nface, 2);
    FieldAt(pre, e, post, 8, n.error.bits, 4);
  }

  lemma TailAt(pre: Bytes, n: Node, post: Bytes)
    ensures var buf := pre + (EncodeSphere(n.sphere) + EncodeF32(n.tightRadius) + Encode(n.firstPatch, 4)) + post;
      |buf| >= |pre| + 24 &&
      SphereAt(buf, |pre|, n.sphere) &&
      n.tightRadius.bits == U32At(buf, |pre| + 16) && n.firstPatch == U32At(buf, |pre| + 20)
  {
    var e := EncodeSphere(n.sphere) + EncodeF32(n.tightRadius) + Encode(n.firstPatch, 4);
    assert Pow256(4) == 0x1_0000_0000;
    Embedded(pre, e, post, 0, EncodeSphere(n.sphere));
    SphereRoundTrip(pre + e[..0], n.sphere, e[16..] + post);
    FieldAt(pre, e, post, 16, n.tightRadius.bits, 4);
    FieldAt(pre, e, post, 20, n.firstPatch, 4);
  }

  lemma PatchLayoutRoundTrip(pre: Bytes, p: Patch, post: Bytes)
    ensures PatchAt(pre + EncodePatch(p) + post, |pre|, p)
  {
    var e := EncodePatch(p);
    assert Pow256(4) == 0x1_0000_0000;
    FieldAt(pre, e, post, 0, p.node, 4);
    FieldAt(pre, e, post, 4, p.triangleOffset, 4);
    FieldAt(pre, e, post, 8, p.texture, 4);
  }

  lemma TextureLayoutRoundTrip(pre: Bytes, t: Texture, post: Bytes)
    requires WellFormedTexture(t)
    ensures TextureAt(pre + EncodeTexture(t) + post, |pre|, t)
  {
    var e := EncodeTexture(t);
    assert Pow256(4) == 0x1_0000_0000;
    FieldAt(pre, e, post, 0, t.offset, 4);
    Embedded(pre, e, post, 4, EncodeFloats(t.matrix));
    FloatsRoundTrip(pre + e[..4], t.matrix, e[68..] + post);
  }

  lemma HeaderLayoutRoundTrip(pre: Bytes, h: Header, post: Bytes)
    requires WellFormedHeader(h)
    ensures HeaderAt(pre + EncodeHeader(h) + post, |pre|, h)
  {
    var e := EncodeHeader(h);
    var head := Encode(h.magic, 4) + Encode(h.version, 4) + Encode(h.nvert, 8) + Encode(h.nface, 8);
    var sig := EncodeSignature(h.signature);
    var tail := Encode(h.nNodes, 4) + Encode(h.nPatches, 4) + Encode(h.nTextures, 4) + EncodeSphere(h.sphere);
    assert e == head + sig + tail;
    HeaderHeadAt(pre, h, e[24..] + post);
    assert pre + e + post == pre + head + (e[24..] + post);
    Embedded(pre, e, post, 24, sig);
    SignatureRoundTrip(pre + e[..24], h.signature, e[60..] + post);
    Embedded(pre, e, post, 60, tail);
    HeaderTailAt(pre + e[..60], h, e[88..] + post);
  }

  lemma HeaderHeadAt(pre: Bytes, h: Header, post: Bytes)
    ensures var buf := pre + (Encode(h.magic, 4) + Encode(h.version, 4) + Encode(h.nvert, 8) + Encode(h.nface, 8)) + post;
      |buf| >= |pre| + 24 &&
      h.magic == U32At(buf, |pre|) && h.version == U32At(buf, |pre| + 4) &&
      h.nvert == LittleEndian(buf[|pre| + 8..|pre| + 16]) &&
      h.nface == LittleEndian(buf[|pre| + 16..|pre| + 24])
  {
    var e := Encode(h.magic, 4) + Encode(h.version, 4) + Encode(h.nvert, 8) + Encode(h.nface, 8);
    assert Pow256(4) == 0x1_0000_0000 && Pow256(8) == 0x1_0000_0000_0000_0000;
    FieldAt(pre, e, post, 0, h.magic, 4);
    FieldAt(pre, e, post, 4, h.version, 4);
    FieldAt(pre, e, post, 8, h.nvert, 8);
    FieldAt(pre, e, post, 16, h.nface, 8);
  }

  lemma HeaderTailAt(pre: Bytes, h: Header, post: Bytes)
    ensures var buf := pre + (Encode(h.nNodes, 4) + Encode(h.nPatches, 4) + Encode(h.nTextures, 4) + EncodeSphere(h.sphere)) + post;
      |buf| >= |pre| + 28 &&
      h.nNodes == U32At(buf, |pre|) && h.nPatches == U32At(buf, |pre| + 4) &&
      h.nTextures == U32At(buf, |pre| + 8) && SphereAt(buf, |pre| + 12, h.sphere)
  {
    var e := Encode(h.nNodes, 4) + Encode(h.nPatches, 4) + Encode(h.nTextures, 4) + EncodeSphere(h.sphere);
    assert Pow256(4) == 0x1_0000_0000;
    FieldAt(pre, e, post, 0, h.nNodes, 4);
    FieldAt(pre, e, post, 4, h.nPatches, 4);
    FieldAt(pre, e, post, 8, h.nTextures, 4);
    Embedded(pre, e, post, 12, EncodeSphere(h.sphere));
    SphereRoundTrip(pre + e[..12], h.sphere, e[28..] + post);
  }

  // A layout determines its record, so each reader undoes its encoder.

  lemma SphereAtUnique(buf: Bytes, pos: nat, a: Sphere, b: Sphere)
    requires SphereAt(buf, pos, a) && SphereAt(buf, pos, b)
    ensures a == b
  {
    assert [a.x, a.y, a.z, a.radius][0] == a.x && [b.x, b.y, b.z, b.radius][0] == b.x;
    assert [a.x, a.y, a.z, a.radius][1] == a.y && [b.x, b.y, b.z, b.radius][1] == b.y;
    assert [a.x, a.y, a.z, a.radius][2] == a.z && [b.x, b.y, b.z, b.radius][2] == b.z;
    assert [a.x, a.y, a.z, a.radius][3] == a.radius && [b.x, b.y, b.z, b.radius][3] == b.radius;
  }

  /** ReadNode(EncodeNode(n)) == n, wherever the record sits in the buffer. */
  lemma ReadNodeEncode(pre: Bytes, n: Node, post: Bytes)
    requires WellFormedNode(n)
    ensures ReadNode(pre + EncodeNode(n) + post, |pre|) == (n, |pre| + NodeRecordSize)
  {
    var buf := pre + EncodeNode(n) + post;
    NodeLayoutRoundTrip(pre, n, post);
    NodeAtUnique(buf, |pre|, ReadNode(buf, |pre|).0, n);
  }

  /** ReadPatch(EncodePatch(p)) == p. */
  lemma ReadPatchEncode(pre: Bytes, p: Patch, post: Bytes)
    ensures ReadPatch(pre + EncodePatch(p) + post, |pre|) == (p, |pre| + PatchRecordSize)
  {
    PatchLayoutRoundTrip(pre, p, post);
  }

  /** ReadTexture(EncodeTexture(t)) == t. */
  lemma ReadTextureEncode(pre: Bytes, t: Texture, post: Bytes)
    requires WellFormedTexture(t)
    ensures ReadTexture(pre + EncodeTexture(t) + post, |pre|) == (t, |pre| + TextureRecordSize)
  {
    var buf := pre + EncodeTexture(t) + post;
    TextureLayoutRoundTrip(pre, t, post);
    TextureAtUnique(buf, |pre|, ReadTexture(buf, |pre|).0, t);
  }

  /** Reading the body of an encoded header returns the header. */
  lemma ReadHeaderEncode(pre: Bytes, h: Header, post: Bytes)
    requires WellFormedHeader(h)
    ensures ReadHeaderBody(pre + EncodeHeader(h) + post, |pre|, h.magic) == (h, |pre| + HeaderSize)
  {
    var buf := pre + EncodeHeader(h) + post;
    HeaderLayoutRoundTrip(pre, h, post);
    var r := ReadHeaderBody(buf, |pre|, h.magic).0;
    HeaderBodyAtUnique(buf, |pre|, r, h);
  }

  lemma HeaderBodyAtUnique(buf: Bytes, pos: nat, a: Header, b: Header)
    requires a.magic == b.magic && HeaderBodyAt(buf, pos, a) && HeaderBodyAt(buf, pos, b)
    ensures a == b
  {
    SphereAtUnique(buf, pos + 72, a.sphere, b.sphere);
    assert a.signature.vertex == b.signature.vertex;
    assert a.signature.face == b.signature.face;
  }

  /** A node record determines its node: two nodes laid out at the same place are equal. */
  lemma NodeAtUnique(buf: Bytes, pos: nat, a: Node, b: Node)
    requires NodeAt(buf, pos, a) && NodeAt(buf, pos, b)
    ensures a == b
  {
    SphereAtUnique(buf, pos + 20, a.sphere, b.sphere);
    assert a.cone == b.cone;
  }

  /** A texture record determines its texture. */
  lemma TextureAtUnique(buf: Bytes, pos: nat, a: Texture, b: Texture)
    requires TextureAt(buf, pos, a) && TextureAt(buf, pos, b)
    ensures a == b
  {
    assert a.matrix == b.matrix;
  }

  /** A patch record determines its patch. */
  lemma PatchAtUnique(buf: Bytes, pos: nat, a: Patch, b: Patch)
    requires PatchAt(buf, pos, a) && PatchAt(buf, pos, b)
    ensures a == b
  {
  }

  // ---------------------------------------------------------------------
  // The header parse over a byte buffer.

  /**
   * ParseHeader over a buffer: nothing when fewer than 88 bytes remain after
   * the cursor or when the first word is not the magic number, otherwise
   * every field of the header at the cursor.
   */
  function ParseHeaderAt(buf: Bytes, pos: nat): (r: Option<Header>)
    ensures r.Some? <==> pos + HeaderSize <= |buf| && U32At(buf, pos) == Magic
    ensures r.Some? ==> HeaderAt(buf, pos, r.value)
  {
    if |buf| < pos + HeaderSize then None
    else
      var magic := Read32(buf, pos).0;
      if magic != Magic then None else Some(ReadHeaderBody(buf, pos, magic).0)
  }

  /**
   * The field reads of ParseHeader at pos: the magic word is stored first,
   * and only when it is right are the other fields read.  next is where the
   * cursor stops: after the magic word on a mismatch, after the header
   * otherwise.
   */
  method DecodeHeaderAt(buf: Bytes, pos: nat, prev: Header) returns (ok: bool, h: Header, next: nat)
    requires pos + HeaderSize <= |buf|
    ensures ok <==> ParseHeaderAt(buf, pos).Some?
    ensures ok ==> h == ParseHeaderAt(buf, pos).value && next == pos + HeaderSize
    ensures !ok ==> h == prev.(magic := Read32(buf, pos).0) && next == pos + 4
  {
    var r := Read32(buf, pos);
    h := prev.(magic := r.0);
    next := r.1;
    if h.magic != Magic {
      return false, h, next;
    }
    var body := ReadHeaderBody(buf, pos, h.magic);
    return true, body.0, body.1;
  }

  /** Parsing an encoded header with the right magic gives the header back, whatever surrounds it. */
  lemma ParseHeaderEncode(pre: Bytes, h: Header, post: Bytes)
    requires WellFormedHeader(h) && h.magic == Magic
    ensures ParseHeaderAt(pre + EncodeHeader(h) + post, |pre|) == Some(h)
  {
    HeaderLayoutRoundTrip(pre, h, post);
    ReadHeaderEncode(pre, h, post);
  }
}
