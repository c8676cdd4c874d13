/**
 * The RAM image of one node (nx::NodeData) and what happens to it once its
 * bytes are in memory: CORTO decoding into the attribute views, and the
 * shuffle that reorders the vertices of point clouds (LoadUtils::LoadNodeData
 * and the same steps inside FUnrealNexusData::LoadIntoRam).
 *
 * The views coords(), normals() and colors() are typed windows on `memory`;
 * here they are fields of their own.  The decoder and UKismetArrayLibrary's
 * random shuffle are outside the source: the decoder's output and the
 * shuffle's random draws are parameters.
 */
module NodeDecode {
  import opened Wire

  /** vcg::Point3f: three floats. */
  datatype Point3f = Point3f(x: F32, y: F32, z: F32)
  /** vcg::Point3s: three signed shorts (a quantised normal). */
  datatype Point3s = Point3s(x: int, y: int, z: int)
  /** vcg::Color4b: four bytes. */
  datatype Color4b = Color4b(r: U8, g: U8, b: U8, a: U8)
  /** Unreal's FVector. */
  datatype Vector = Vector(x: F32, y: F32, z: F32)

  /** Bytes per element of each view. */
  const Point3fBytes: nat := 12
  const Point3sBytes: nat := 6
  const Color4bBytes: nat := 4
  /** sizeof(vcg::Point2f), one texture coordinate. */
  const Point2fBytes: nat := 8

  /**
   * What the Nexus library answers about the file's signature: whether it is
   * compressed, whether the CORTO flag is set, which vertex attributes and
   * whether a face index exist, and the byte size of one vertex and one face.
   */
  datatype SigTraits = SigTraits(
    compressed: bool, corto: bool, hasNormals: bool, hasColors: bool, hasIndex: bool,
    vertexSize: nat, faceSize: nat)

  /** The attribute views of a node's memory. */
  datatype Views = Views(coords: seq<Point3f>, normals: seq<Point3s>, colors: seq<Color4b>)

  /** Each present view holds one element per vertex. */
  ghost predicate ViewsFit(v: Views, t: SigTraits, n: nat)
  {
    |v.coords| == n && (t.hasNormals ==> |v.normals| == n) && (t.hasColors ==> |v.colors| == n)
  }

  /** VcgPoint3FToVector: Nexus is Y-up, Unreal is Z-up, so y and z trade places. */
  function VcgPoint3FToVector(p: Point3f): (v: Vector)
    ensures v.x == p.x && v.y == p.z && v.z == p.y
  {
    Vector(p.x, p.z, p.y)
  }

  /** The inverse axis change. */
  function VectorToVcgPoint3F(v: Vector): (p: Point3f)
    ensures p.x == v.x && p.y == v.z && p.z == v.y
  {
    Point3f(v.x, v.z, v.y)
  }

  lemma AxisSwapRoundTrip(p: Point3f, v: Vector)
    ensures VectorToVcgPoint3F(VcgPoint3FToVector(p)) == p
    ensures VcgPoint3FToVector(VectorToVcgPoint3F(v)) == v
  {
  }

  class NodeData {
    /** The node's bytes; null while the node is not in RAM. */
    var memory: array?<U8>
    var coords: seq<Point3f>
    var normals: seq<Point3s>
    var colors: seq<Color4b>

    constructor ()
      ensures memory == null && coords == [] && normals == [] && colors == []
    {
      memory := null;
      coords := [];
      normals := [];
      colors := [];
    }

    function AllViews(): Views
      reads this
    {
      Views(coords, normals, colors)
    }
  }

  // ---------------------------------------------------------------------
  // Reordering.

  /** Every entry of an order is a valid index into a view of n elements. */
  ghost predicate Below(order: seq<nat>, n: nat)
  {
    forall i :: 0 <= i < |order| ==> order[i] < n
  }

  lemma BelowPreserved(a: seq<nat>, b: seq<nat>, n: nat)
    requires multiset(a) == multiset(b) && Below(a, n)
    ensures Below(b, n)
  {
    forall i | 0 <= i < |b|
      ensures b[i] < n
    {
      assert b[i] in multiset(a);
    }
  }

  /** 0, 1, ..., n-1: the Order array before it is shuffled. */
  function Identity(n: nat): (r: seq<nat>)
    ensures |r| == n && forall i :: 0 <= i < n ==> r[i] == i
  {
    seq(n, i => i)
  }

  /** s with slots i and j exchanged. */
  function Swap<T>(s: seq<T>, i: nat, j: nat): (r: seq<T>)
    requires i < |s| && j < |s|
    ensures |r| == |s| && r[i] == s[j] && r[j] == s[i]
    ensures forall k :: 0 <= k < |s| && k != i && k != j ==> r[k] == s[k]
  {
    s[i := s[j]][j := s[i]]
  }

  lemma SwapPermutes<T>(s: seq<T>, i: nat, j: nat)
    requires i < |s| && j < |s|
    ensures multiset(Swap(s, i, j)) == multiset(s)
  {
    var t := s[i := s[j]];
    assert multiset(t) == multiset(s) - multiset{s[i]} + multiset{s[j]};
  }

  /** Random draws for a Fisher-Yates shuffle of n slots: slot i is swapped with a slot in [i, n). */
  ghost predicate ValidDraws(draws: seq<nat>, n: nat)
  {
    |draws| == n && forall i :: 0 <= i < n ==> i <= draws[i] < n
  }

  /** Array_Shuffle from slot k on: slot k is swapped with draws[k], then k+1, and so on. */
  function ShuffleFrom<T>(s: seq<T>, draws: seq<nat>, k: nat): (r: seq<T>)
    requires ValidDraws(draws, |s|) && k <= |s|
    ensures |r| == |s|
    decreases |s| - k
  {
    if k == |s| then s else ShuffleFrom(Swap(s, k, draws[k]), draws, k + 1)
  }

  /** The shuffle is a permutation: every swap is. */
  lemma {:induction false} ShuffleFromPermutes<T>(s: seq<T>, draws: seq<nat>, k: nat)
    requires ValidDraws(draws, |s|) && k <= |s|
    ensures multiset(ShuffleFrom(s, draws, k)) == multiset(s)
    decreases |s| - k
  {
    if k < |s| {
      SwapPermutes(s, k, draws[k]);
      ShuffleFromPermutes(Swap(s, k, draws[k]), draws, k + 1);
    }
  }

  /** The shuffled Order array: a permutation of 0..n-1. */
  function ShuffledOrder(n: nat, draws: seq<nat>): (order: seq<nat>)
    requires ValidDraws(draws, n)
    ensures |order| == n && multiset(order) == multiset(Identity(n))
    ensures Below(order, n)
  {
    var order: seq<nat> := ShuffleFrom(Identity(n), draws, 0);
    ShuffleFromPermutes(Identity(n), draws, 0);
    BelowPreserved(Identity(n), order, n);
    order
  }

  /** The view whose slot i holds the element the old view held at order[i]. */
  function Gather<T>(src: seq<T>, order: seq<nat>): (r: seq<T>)
    requires Below(order, |src|)
    ensures |r| == |order| && forall i :: 0 <= i < |order| ==> r[i] == src[order[i]]
  {
    seq(|order|, i requires 0 <= i < |order| => src[order[i]])
  }

  lemma GatherSwap<T>(src: seq<T>, order: seq<nat>, i: nat, j: nat)
    requires Below(order, |src|)
    requires i < |order| && j < |order|
    ensures Gather(src, Swap(order, i, j)) == Swap(Gather(src, order), i, j)
  {
  }

  /** Shuffling the order and then gathering is gathering and then shuffling. */
  lemma {:induction false} GatherShuffle<T>(src: seq<T>, order: seq<nat>, draws: seq<nat>, k: nat)
    requires Below(order, |src|)
    requires ValidDraws(draws, |order|) && k <= |order|
    ensures Below(ShuffleFrom(order, draws, k), |src|)
    ensures Gather(src, ShuffleFrom(order, draws, k)) == ShuffleFrom(Gather(src, order), draws, k)
    decreases |order| - k
  {
    if k < |order| {
      var swapped := Swap(order, k, draws[k]);
      SwapPermutes(order, k, draws[k]);
      BelowPreserved(order, swapped, |src|);
      GatherSwap(src, order, k, draws[k]);
      GatherShuffle(src, swapped, draws, k + 1);
      var g := Gather(src, order);
      assert ShuffleFrom(order, draws, k) == ShuffleFrom(swapped, draws, k + 1);
      assert ShuffleFrom(g, draws, k) == ShuffleFrom(Swap(g, k, draws[k]), draws, k + 1);
    }
  }

  /**
   * Shuffling a view moves its elements around and loses or duplicates none:
   * the gathered view is a permutation of the old one.
   */
  lemma ShufflePermutes<T>(src: seq<T>, draws: seq<nat>)
    requires ValidDraws(draws, |src|)
    ensures multiset(Gather(src, ShuffledOrder(|src|, draws))) == multiset(src)
  {
    var n := |src|;
    GatherShuffle(src, Identity(n), draws, 0);
    assert Gather(src, Identity(n)) == src;
    ShuffleFromPermutes(src, draws, 0);
  }

  /** The views after the point-cloud shuffle: every present view gathered by the same order. */
  function ShuffledViews(v: Views, order: seq<nat>, t: SigTraits): (r: Views)
    requires ViewsFit(v, t, |order|) && Below(order, |order|)
    ensures ViewsFit(r, t, |order|)
  {
    Views(
      Gather(v.coords, order),
      if t.hasNormals then Gather(v.normals, order) else v.normals,
      if t.hasColors then Gather(v.colors, order) else v.colors)
  }

  /**
   * The shuffle keeps each vertex whole: slot i of every present view comes
   * from the same old vertex, and every view is a permutation of its old
   * content.
   */
  lemma ShuffleKeepsVerticesWhole(v: Views, t: SigTraits, draws: seq<nat>)
    requires ValidDraws(draws, |v.coords|) && ViewsFit(v, t, |v.coords|)
    ensures var order := ShuffledOrder(|v.coords|, draws);
      var r := ShuffledViews(v, order, t);
      (forall i :: 0 <= i < |order| ==>
        r.coords[i] == v.coords[order[i]] &&
        (t.hasNormals ==> r.normals[i] == v.normals[order[i]]) &&
        (t.hasColors ==> r.colors[i] == v.colors[order[i]])) &&
      multiset(r.coords) == multiset(v.coords) &&
      multiset(r.normals) == multiset(v.normals) &&
      multiset(r.colors) == multiset(v.colors)
  {
    var n := |v.coords|;
    ShufflePermutes(v.coords, draws);
    if t.hasNormals {
      ShufflePermutes(v.normals, draws);
    }
    if t.hasColors {
      ShufflePermutes(v.colors, draws);
    }
  }

  /** One of the three gather loops: Temp[i] = view[Order[i]]. */
  method Reorder<T>(view: seq<T>, order: seq<nat>) returns (out: seq<T>)
    requires Below(order, |view|)
    ensures out == Gather(view, order)
  {
    out := [];
    var i := 0;
    while i < |order|
      invariant i <= |order| && |out| == i
      invariant forall k :: 0 <= k < i ==> out[k] == view[order[k]]
    {
      out := out + [view[order[i]]];
      i := i + 1;
    }
  }

  /** The Order array: filled with 0..n-1 by a loop, then shuffled. */
  method MakeOrder(n: nat, draws: seq<nat>) returns (order: seq<nat>)
    requires ValidDraws(draws, n)
    ensures order == ShuffledOrder(n, draws)
  {
    order := [];
    while |order| < n
      invariant |order| <= n && forall i :: 0 <= i < |order| ==> order[i] == i
    {
      order := order + [|order|];
    }
    assert order == Identity(n);
    order := ShuffleFrom(order, draws, 0);
  }

  /**
   * Shuffle the vertices of a point cloud in place: coordinates, and normals
   * and colours when the signature has them, all by the same order, each
   * copied back over its own view.
   */
  method ShuffleVertices(d: NodeData, t: SigTraits, n: nat, draws: seq<nat>)
    requires ViewsFit(d.AllViews(), t, n) && ValidDraws(draws, n)
    modifies d
    ensures d.memory == old(d.memory)
    ensures d.AllViews() == ShuffledViews(old(d.AllViews()), ShuffledOrder(n, draws), t)
  {
    var order := MakeOrder(n, draws);
    var coords := Reorder(d.coords, order);
    d.coords := coords;
    if t.hasNormals {
      var normals := Reorder(d.normals, order);
      d.normals := normals;
    }
    if t.hasColors {
      var colors := Reorder(d.colors, order);
      d.colors := colors;
    }
  }

  // ---------------------------------------------------------------------
  // The write-back of the reordered normals.

  /**
   * Byte offsets of the views inside a node's memory, as nx::NodeData lays
   * them out: coordinates first, then texture coordinates if the vertex has
   * them, then normals if present, then colours.
   */
  function NormalsStart(n: nat, hasTextures: bool): nat
  {
    Point3fBytes * n + (if hasTextures then Point2fBytes * n else 0)
  }

  function ColorsStart(n: nat, t: SigTraits, hasTextures: bool): nat
  {
    NormalsStart(n, hasTextures) + (if t.hasNormals then Point3sBytes * n else 0)
  }

  /** The byte count the normals write-back copies, as written: sizeof(Point3f) per vertex. */
  function NormalsCopyBytesAsWritten(n: nat): nat { Point3fBytes * n }

  /** The byte count the normals write-back should copy: one Point3s per vertex. */
  function NormalsCopyBytes(n: nat): nat { Point3sBytes * n }

  /**
   * As written, the normals write-back reads past the end of the temporary
   * normals array and overwrites the whole colour view.
   */
  lemma NormalsCopyOverrunsColors(n: nat, t: SigTraits, hasTextures: bool)
    requires n > 0 && t.hasNormals && t.hasColors
    ensures NormalsCopyBytesAsWritten(n) > Point3sBytes * n
    ensures NormalsStart(n, hasTextures) + NormalsCopyBytesAsWritten(n) >= ColorsStart(n, t, hasTextures) + Color4bBytes * n
  {
  }

  /** Copying one Point3s per vertex stays inside the normals view and never reaches the colours. */
  lemma NormalsCopyStaysInView(n: nat, t: SigTraits, hasTextures: bool)
    requires t.hasNormals
    ensures NormalsCopyBytes(n) == Point3sBytes * n
    ensures NormalsStart(n, hasTextures) + NormalsCopyBytes(n) == ColorsStart(n, t, hasTextures)
  {
  }

  // ---------------------------------------------------------------------
  // LoadNodeData.

  /**
   * The decompressed size, computed in size_t and stored in a UINT32: the
   * exact size when it fits in 32 bits, never more than it.
   */
  function RealSize(t: SigTraits, vertCount: nat, facesCount: nat): (r: U32)
    ensures r <= vertCount * t.vertexSize + facesCount * t.faceSize
    ensures vertCount * t.vertexSize + facesCount * t.faceSize < 0x1_0000_0000 ==>
      r == vertCount * t.vertexSize + facesCount * t.faceSize
  {
    (vertCount * t.vertexSize + facesCount * t.faceSize) % 0x1_0000_0000
  }

  /** The stored size is the computed one modulo 2^32. */
  lemma RealSizeWraps(t: SigTraits, vertCount: nat, facesCount: nat)
    ensures (vertCount * t.vertexSize + facesCount * t.faceSize - RealSize(t, vertCount, facesCount)) % 0x1_0000_0000 == 0
  {
  }

  /** The views the decoder fills: positions always, normals and colours only when present. */
  function DecodedViews(decoded: Views, t: SigTraits): (r: Views)
    ensures r.coords == decoded.coords
    ensures r.normals == (if t.hasNormals then decoded.normals else [])
    ensures r.colors == (if t.hasColors then decoded.colors else [])
  {
    Views(decoded.coords,
      if t.hasNormals then decoded.normals else [],
      if t.hasColors then decoded.colors else [])
  }

  /**
   * LoadUtils::LoadNodeData: leave uncompressed data and non-CORTO data
   * alone; otherwise replace the compressed bytes by a fresh buffer of the
   * decompressed size, let the decoder fill the views, and shuffle point
   * clouds (no face index).
   */
  method LoadNodeData(t: SigTraits, vertCount: nat, facesCount: nat, d: NodeData,
                      dataSizeOnDisk: nat, decoded: Views, draws: seq<nat>)
    requires t.compressed && t.corto ==>
      d.memory != null && dataSizeOnDisk <= d.memory.Length &&
      ViewsFit(decoded, t, vertCount) && ValidDraws(draws, vertCount)
    modifies d
    ensures !t.compressed || !t.corto ==> d.AllViews() == old(d.AllViews()) && d.memory == old(d.memory)
    ensures t.compressed && t.corto ==>
      d.memory != null && fresh(d.memory) && d.memory.Length == RealSize(t, vertCount, facesCount) &&
      d.AllViews() == (if t.hasIndex then DecodedViews(decoded, t)
                    else ShuffledViews(DecodedViews(decoded, t), ShuffledOrder(vertCount, draws), t))
  {
    if !t.compressed {
      return;
    } else if t.corto {
      var size := RealSize(t, vertCount, facesCount);
      var compressed := d.memory[..dataSizeOnDisk];
      d.memory := new U8[size];
      var v := DecodedViews(decoded, t);
      d.coords, d.normals, d.colors := v.coords, v.normals, v.colors;
    } else {
      return;
    }
    if !t.hasIndex {
      ShuffleVertices(d, t, vertCount, draws);
    }
  }
}
