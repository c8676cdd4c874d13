# Nexus multiresolution meshes in Unreal: a verified model

UnrealNexus is an Unreal Engine plugin for Nexus multiresolution meshes. A Nexus file holds:

- an 88-byte header;
- a table of node records, a table of patch records and a table of texture records;
- the node data.

The nodes form a DAG. A node's patches name its children, and the last node is the sink. Every frame, the plugin walks the DAG best-first under the current camera. It selects the nodes to draw, queues the nodes it wants fetched and evicts cached nodes when the draw budget is exceeded. It then draws each selected node. For each node it keeps only the triangle ranges whose patch child was not itself selected.

This project models that core in Dafny:

| module | file | models |
|---|---|---|
| `Wire` | wire.dfy | the little-endian cursor readers `Read8/16/32/64`, `ReadFloat`, the signed `ReadShort` and unsigned wrap-around subtraction |
| `Records` | records.dfy | the 36-byte signature, the 44-, 12- and 68-byte node, patch and texture records and the 88-byte header, with an encoder for each as the reader's partner |
| `Dag` | dag.dfy | per-node patch ranges, the root-count scan and table reading |
| `NodeDecode` | node_decode.dfy | `nx::NodeData`, `LoadNodeData` (CORTO branch and point-cloud shuffle) and `VcgPoint3FToVector` |
| `NodeSerial` | node_serial.dfy | `SerializeNodeData`, the length-prefixed byte-per-word archive format |
| `RuntimeData` | runtime_data.dfy | `FUnrealNexusData`: the file-based header parse, table reading, RAM residency and texture reference counts |
| `RuntimeFactory` | runtime_factory.dfy | the runtime `UNexusFactory`: the buffer header parse and table reading into arrays |
| `EditorFactory` | editor_factory.dfy | the editor `UNexusFactory`: the header, node assets with their byte sizes, patch assignment, texture byte ranges and roots |
| `Streaming` | streaming.dfy | `UUnrealNexusComponent` (status map, error store, traversal) and `FUnrealNexusProxy` (candidates, best-node choice, GPU cache bookkeeping, eviction, frame update) |
| `EdgeSlicing` | edge_slicing.dfy | the edge-node test and the triangle-range slicing of `DrawEdgeNodes` |

Conventions:

- Bytes are `seq<U8>` and a cursor is a `nat` position. A reader returns the value and the new position.
- A float field keeps its raw 32-bit pattern. `Wire.FloatValue` reads it as a real where a comparison needs one.
- Library helpers that are not in the repository are parameters:
  - `getBeginOffset` is a function `Node -> nat`;
  - `vertex.size()`, `face.size()`, `hasIndex`, `hasNormals`, `hasColors`, `isCompressed` and the CORTO flag form a `SigTraits` value.
- The screen-space error under the current camera is a parameter `viewError: nat -> real`, since `CalculateErrorForNode` is floating-point geometry.
- The frustum test is a parameter `inFrustum`.
- The corto decoder's output is a parameter.
- `Array_Shuffle` is a Fisher–Yates shuffle driven by a parameter sequence of draws. So "an arbitrary permutation" is every permutation the draws can produce.
- Render commands take effect at once. The job thread's finished nodes are a parameter of `Update`.

Where the code and the design text disagree, the model follows the code:

- `CalculatedErrors` is cleared at the start of every traversal. There is no ratchet across frames.
- `FindBestNode` skips only Loaded candidates, so a Pending node can be requested again.

## Model

| member | source | states |
|---|---|---|
| Wire.Read8 | Plugins/NexusPlugin/Source/NexusPlugin/Public/NexusUtils.h:8 | the value is the byte under the cursor and the cursor advances by exactly 1 |
| Wire.Read16 | Plugins/NexusPlugin/Source/NexusPlugin/Public/NexusUtils.h:10-15 | the value is the little-endian number of the next 2 bytes and the cursor advances by 2 |
| Wire.Read32 | Plugins/NexusPlugin/Source/NexusPlugin/Public/NexusUtils.h:17-22 | the value is the little-endian number of the next 4 bytes, which is Read16 of the first pair plus 65536 times Read16 of the second, and the cursor advances by 4 |
| Wire.Read64 | Plugins/NexusPlugin/Source/NexusPlugin/Public/NexusUtils.h:24-29 | the value is the little-endian number of the next 8 bytes, which is the low word plus 2^32 times the high word, and the cursor advances by 8 |
| Wire.ReadFloat | Plugins/NexusPlugin/Source/NexusPlugin/Public/NexusUtils.h:31-36 | the float's bit pattern is the little-endian number of the next 4 bytes and the cursor advances by 4 |
| Wire.LittleEndianBound | Plugins/NexusPlugin/Source/NexusPlugin/Public/NexusUtils.h:10-29 | an n-byte reading is below 256^n, so Read16, Read32 and Read64 fit their widths |
| Wire.LittleEndianAppend | Plugins/NexusPlugin/Source/NexusPlugin/Public/NexusUtils.h:17-29 | the reading of a+b is the reading of a plus 256^len(a) times the reading of b, the composition Read32 and Read64 rely on |
| Wire.DecodeEncode | Plugins/NexusPlugin/Source/NexusPlugin/Public/NexusUtils.h:10-29 | writing a value below 256^n as n little-endian bytes and reading them back gives the value |
| Wire.Read16Encode | Plugins/NexusPlugin/Source/NexusPlugin/Public/NexusUtils.h:10-15 | Read16 of an encoded 16-bit value, at any position in any buffer, returns that value and the position 2 further on |
| Wire.Read32Encode | Plugins/NexusPlugin/Source/NexusPlugin/Public/NexusUtils.h:17-22 | the same round trip for Read32 and 4 bytes |
| Wire.Read64Encode | Plugins/NexusPlugin/Source/NexusPlugin/Public/NexusUtils.h:24-29 | the same round trip for Read64 and 8 bytes |
| Wire.AsShort | Plugins/NexusPlugin/Source/NexusPlugin/Private/NexusUtils.cpp:15 | reinterpreting a uint16 as a short gives the unique value in [-32768, 32768) congruent to it modulo 2^16 |
| Wire.ReadShort | Plugins/NexusPlugin/Source/NexusPlugin/Private/NexusUtils.cpp:13-16 | the cone reader consumes 2 bytes and returns their little-endian value read as two's complement |
| Wire.ShortBits | Plugins/NexusPlugin/Source/NexusPlugin/Private/NexusUtils.cpp:13-16 | every short has a 16-bit pattern that AsShort maps back to it |
| Wire.ReadShortEncode | Plugins/NexusPlugin/Source/NexusPlugin/Private/NexusUtils.cpp:13-16 | writing a short's bit pattern and reading it with ReadShort gives the short back |
| Wire.UnsignedSub | Plugins/NexusPlugin/Source/NexusPlugin/Private/UnrealNexusComponent.cpp:418 | unsigned subtraction modulo m is below m; it is the true difference when b >= a, and m minus the gap when b < a |
| Wire.FloatValue | Plugins/NexusPlugin/Source/NexusPlugin/Public/NexusUtils.h:31-36 | a float with the sign bit clear is >= 0, one with it set is <= 0, and both zero patterns are 0 |
| Records.ReadAttribute | Plugins/NexusPlugin/Source/NexusPlugin/Private/UnrealNexusData.cpp:10-16 | an attribute is the (type, number) byte pair at the cursor and takes 2 bytes |
| Records.ReadAttributes | Plugins/NexusPlugin/Source/NexusPlugin/Private/UnrealNexusData.cpp:21-29 | k attributes are the k consecutive byte pairs at the cursor and take 2k bytes |
| Records.ReadFloats | Plugins/NexusPlugin/Source/NexusPlugin/Private/NexusUtils.cpp:51-54 | k floats are the k consecutive 4-byte words at the cursor and take 4k bytes |
| Records.ReadSphere | Plugins/NexusPlugin/Source/NexusPlugin/Private/NexusUtils.cpp:27-30 | a sphere is center x, y, z then radius, 16 bytes in that order |
| Records.ReadSignature | Plugins/NexusPlugin/Source/NexusPlugin/Private/UnrealNexusData.cpp:18-36 | a signature is 8 vertex attributes, 8 face attributes and the flags word: 36 bytes at their layout positions |
| Records.ReadCone | Plugins/NexusPlugin/Source/NexusPlugin/Private/NexusUtils.cpp:23-26 | the four cone components are the two's-complement readings of the next four 16-bit words |
| Records.ReadNode | Plugins/NexusPlugin/Source/NexusPlugin/Private/NexusUtils.cpp:10-34 | a node record takes 44 bytes: offset, nvert, nface, error, cone[0..3], sphere, tight_radius and first_patch, each at its layout offset |
| Records.ReadPatch | Plugins/NexusPlugin/Source/NexusPlugin/Private/NexusUtils.cpp:36-44 | a patch record takes 12 bytes: node, triangle_offset, texture |
| Records.ReadTexture | Plugins/NexusPlugin/Source/NexusPlugin/Private/NexusUtils.cpp:46-56 | a texture record takes 68 bytes: offset, then the 16 matrix entries |
| Records.ReadHeaderBody | Plugins/NexusPlugin/Source/NexusPlugin/Private/NexusFactory.cpp:74-84 | after the magic: version, nvert, nface, signature, n_nodes, n_patches, n_textures and sphere, at their offsets in the 88-byte header |
| Records.AttributesRoundTrip | Plugins/NexusPlugin/Source/NexusPlugin/Private/UnrealNexusData.cpp:10-16 | encoded attributes sit at their layout positions in any surrounding buffer |
| Records.FloatsRoundTrip | Plugins/NexusPlugin/Source/NexusPlugin/Private/NexusUtils.cpp:51-54 | encoded floats sit at their layout positions in any surrounding buffer |
| Records.SignatureRoundTrip | Plugins/NexusPlugin/Source/NexusPlugin/Private/UnrealNexusData.cpp:18-36 | an encoded signature matches the signature layout |
| Records.SphereRoundTrip | Plugins/NexusPlugin/Source/NexusPlugin/Private/NexusUtils.cpp:27-30 | an encoded sphere matches the sphere layout |
| Records.NodeLayoutRoundTrip | Plugins/NexusPlugin/Source/NexusPlugin/Private/NexusUtils.cpp:19-32 | an encoded node record matches the node layout |
| Records.PatchLayoutRoundTrip | Plugins/NexusPlugin/Source/NexusPlugin/Private/NexusUtils.cpp:40-42 | an encoded patch record matches the patch layout |
| Records.TextureLayoutRoundTrip | Plugins/NexusPlugin/Source/NexusPlugin/Private/NexusUtils.cpp:50-54 | an encoded texture record matches the texture layout |
| Records.HeaderLayoutRoundTrip | Plugins/NexusPlugin/Source/NexusPlugin/Private/NexusFactory.cpp:68-84 | an encoded header matches the 88-byte header layout |
| Records.ReadNodeEncode | Plugins/NexusPlugin/Source/NexusPlugin/Private/NexusUtils.cpp:10-34 | ReadNode of an encoded node returns that node and advances 44 bytes |
| Records.ReadPatchEncode | Plugins/NexusPlugin/Source/NexusPlugin/Private/NexusUtils.cpp:36-44 | ReadPatch of an encoded patch returns it and advances 12 bytes |
| Records.ReadTextureEncode | Plugins/NexusPlugin/Source/NexusPlugin/Private/NexusUtils.cpp:46-56 | ReadTexture of an encoded texture returns it and advances 68 bytes |
| Records.ReadHeaderEncode | Plugins/NexusPlugin/Source/NexusPlugin/Private/NexusFactory.cpp:74-84 | reading an encoded header's body returns that header and advances 88 bytes |
| Records.SphereAtUnique | Plugins/NexusPlugin/Source/NexusPlugin/Private/NexusUtils.cpp:27-30 | the bytes at a position determine the sphere |
| Records.NodeAtUnique | Plugins/NexusPlugin/Source/NexusPlugin/Private/NexusUtils.cpp:10-34 | the bytes at a position determine the node record, so the layout is unambiguous |
| Records.PatchAtUnique | Plugins/NexusPlugin/Source/NexusPlugin/Private/NexusUtils.cpp:36-44 | the bytes determine the patch record |
| Records.TextureAtUnique | Plugins/NexusPlugin/Source/NexusPlugin/Private/NexusUtils.cpp:46-56 | the bytes determine the texture record |
| Records.HeaderBodyAtUnique | Plugins/NexusPlugin/Source/NexusPlugin/Private/NexusFactory.cpp:74-84 | the bytes and the magic determine the header |
| Records.ParseHeaderAt | Plugins/NexusPlugin/Source/NexusPlugin/Private/NexusFactory.cpp:53-90 | a header is parsed iff at least 88 bytes remain and the first word is 0x4E787320, and then every field is at its layout position |
| Records.DecodeHeaderAt | Plugins/NexusPlugin/Source/NexusPlugin/Private/NexusFactory.cpp:68-84 | the step-by-step header parse succeeds exactly when ParseHeaderAt does; on a bad magic only the magic field is set and the cursor has moved 4 bytes |
| Records.ParseHeaderEncode | Plugins/NexusPlugin/Source/NexusPlugin/Private/NexusFactory.cpp:53-90 | an encoded header with the right magic parses back to itself |
| Dag.PatchEnd | Plugins/NexusPlugin/Source/NexusPlugin/Private/NexusFactory.cpp:126 | last_patch of node j is node j+1's first_patch; the sink's range is empty |
| Dag.PatchRangeInBounds | Plugins/NexusPlugin/Source/NexusPluginEditor/Private/NexusFactory.cpp:198-207 | in a well-formed file, every node's patch range lies inside the patch table |
| Dag.NodePatches | Plugins/NexusPlugin/Source/NexusPluginEditor/Private/NexusFactory.cpp:198-207 | node j's patches are Patches[first_patch(j) .. first_patch(j+1)) in order |
| Dag.CountRoots | Plugins/NexusPlugin/Source/NexusPlugin/Private/NexusFactory.cpp:123-129 | after the scan, no patch of a node below the count points below the count, and a count below n_nodes is some patch's target |
| Dag.RootCountIsParentless | Plugins/NexusPlugin/Source/NexusPlugin/Private/UnrealNexusData.cpp:190-196 | when children have larger ids than their parents, the scanned count is exactly the set of parentless nodes: no patch anywhere targets a node below it |
| Dag.ParentlessUnique | Plugins/NexusPlugin/Source/NexusPluginEditor/Private/NexusFactory.cpp:224-232 | the parentless-prefix count is unique, so the scan has only one correct answer |
| Dag.NextNode | Plugins/NexusPlugin/Source/NexusPlugin/Private/NexusFactory.cpp:110 | one node read at the cursor yields the node record laid out there and moves 44 bytes |
| Dag.NextPatch | Plugins/NexusPlugin/Source/NexusPlugin/Private/NexusFactory.cpp:115 | one patch read yields the patch record there and moves 12 bytes |
| Dag.NextTexture | Plugins/NexusPlugin/Source/NexusPlugin/Private/NexusFactory.cpp:120 | one texture read yields the texture record there and moves 68 bytes |
| Dag.NodeTableSnoc | Plugins/NexusPlugin/Source/NexusPluginEditor/Private/NexusFactory.cpp:163-167 | a node table followed by the next record is a one-longer node table |
| Dag.ReadNodeTable | Plugins/NexusPlugin/Source/NexusPluginEditor/Private/NexusFactory.cpp:163-167 | n_nodes node records are read in file order, each at 44·i from the start, and the cursor moves by 44·n_nodes |
| Dag.ReadPatchTable | Plugins/NexusPlugin/Source/NexusPluginEditor/Private/NexusFactory.cpp:190-195 | n_patches patch records are read in file order and the cursor moves by 12·n_patches |
| Dag.ReadTextureTable | Plugins/NexusPlugin/Source/NexusPluginEditor/Private/NexusFactory.cpp:209-213 | n_textures texture records are read in file order and the cursor moves by 68·n_textures |
| Dag.NodeTableAtUnique | Plugins/NexusPlugin/Source/NexusPlugin/Private/UnrealNexusData.cpp:175-178 | the bytes determine a node table of a given length |
| Dag.PatchTableAtUnique | Plugins/NexusPlugin/Source/NexusPlugin/Private/UnrealNexusData.cpp:180-183 | the bytes determine a patch table of a given length |
| Dag.TextureTableAtUnique | Plugins/NexusPlugin/Source/NexusPlugin/Private/UnrealNexusData.cpp:185-188 | the bytes determine a texture table of a given length |
| NodeDecode.VcgPoint3FToVector | Plugins/NexusPlugin/Source/NexusPlugin/Private/NexusUtils.cpp:159-162 | (x, y, z) becomes (x, z, y) |
| NodeDecode.AxisSwapRoundTrip | Plugins/NexusPlugin/Source/NexusPlugin/Private/NexusCommons.cpp:12-15 | swapping Y and Z twice gives back the original triple, in both directions |
| NodeDecode.Identity | Plugins/NexusPlugin/Source/NexusPlugin/Private/NexusUtils.cpp:104-107 | Order starts as 0..VertCount-1 |
| NodeDecode.Swap | Plugins/NexusPlugin/Source/NexusPlugin/Private/NexusUtils.cpp:109 | one step of the shuffle exchanges two entries and leaves every other entry alone |
| NodeDecode.SwapPermutes | Plugins/NexusPlugin/Source/NexusPlugin/Private/NexusUtils.cpp:109 | an exchange keeps the multiset of entries |
| NodeDecode.ShuffleFromPermutes | Plugins/NexusPlugin/Source/NexusPlugin/Private/NexusUtils.cpp:109 | the whole shuffle keeps the multiset of entries |
| NodeDecode.ShuffledOrder | Plugins/NexusPlugin/Source/NexusPlugin/Private/NexusUtils.cpp:104-109 | the shuffled Order is a permutation of 0..VertCount-1 |
| NodeDecode.Gather | Plugins/NexusPlugin/Source/NexusPlugin/Private/NexusUtils.cpp:111-114 | new[i] = old[Order[i]] for every i |
| NodeDecode.GatherSwap | Plugins/NexusPlugin/Source/NexusPlugin/Private/NexusUtils.cpp:109-114 | gathering through a swapped order is swapping the gathered view |
| NodeDecode.GatherShuffle | Plugins/NexusPlugin/Source/NexusPlugin/Private/NexusUtils.cpp:103-115 | gathering through a shuffled order is shuffling the gathered view |
| NodeDecode.ShufflePermutes | Plugins/NexusPlugin/Source/NexusPlugin/Private/NexusUtils.cpp:103-115 | the shuffled view is a permutation of the old view |
| NodeDecode.ShuffledViews | Plugins/NexusPlugin/Source/NexusPlugin/Private/NexusUtils.cpp:103-134 | the shuffle keeps every view's length and presence; normals and colours are reordered only when present |
| NodeDecode.ShuffleKeepsVerticesWhole | Plugins/NexusPlugin/Source/NexusPlugin/Private/NexusCommons.cpp:73-95 | slot i of coords, normals and colours all come from the same old vertex Order[i], and every view is a permutation of its old content |
| NodeDecode.Reorder | Plugins/NexusPlugin/Source/NexusPlugin/Private/NexusUtils.cpp:111-115 | the gather loop and copy-back leave the view equal to Gather(view, Order) |
| NodeDecode.MakeOrder | Plugins/NexusPlugin/Source/NexusPlugin/Private/NexusUtils.cpp:104-109 | the fill loop and shuffle produce ShuffledOrder |
| NodeDecode.ShuffleVertices | Plugins/NexusPlugin/Source/NexusPlugin/Private/NexusUtils.cpp:103-134 | corrected, see Findings: the views become ShuffledViews of the old views under one Order, and the buffer is not replaced |
| NodeDecode.NormalsCopyOverrunsColors | Plugins/NexusPlugin/Source/NexusPlugin/Private/NexusUtils.cpp:123 | as written, the normals copy moves 12·n bytes from a start where only 6·n bytes of normals lie, so it reaches through the whole colour block |
| NodeDecode.NormalsCopyStaysInView | Plugins/NexusPlugin/Source/NexusPlugin/Private/NexusUtils.cpp:117-124 | with sizeof(Point3s) the copy ends exactly where the colours begin |
| NodeDecode.RealSize | Plugins/NexusPlugin/Source/NexusPlugin/Private/NexusUtils.cpp:66 | the decompressed size is VertCount·vertex.size() + FacesCount·face.size() whenever that sum fits in 32 bits, and never more than the sum |
| NodeDecode.RealSizeWraps | Plugins/NexusPlugin/Source/NexusPlugin/Private/NexusUtils.cpp:66 | the stored uint32 size differs from the true sum by a multiple of 2^32 |
| NodeDecode.LoadNodeData | Plugins/NexusPlugin/Source/NexusPlugin/Private/NexusUtils.cpp:58-134 | corrected, see Findings: uncompressed and non-CORTO data are left untouched; under CORTO the memory becomes a fresh RealSize buffer holding the decoded views, shuffled by one Order when the faces have no index |
| NodeSerial.Widen | Plugins/NexusPlugin/Source/NexusPlugin/Private/UnrealNexusNodeData.cpp:18 | a char widened to UINT16 keeps its low byte, so bytes below 0x80 are unchanged and the others gain a 0xFF high byte |
| NodeSerial.Narrow | Plugins/NexusPlugin/Source/NexusPlugin/Private/UnrealNexusNodeData.cpp:20 | storing a word back in a char keeps its low byte |
| NodeSerial.SavedImage | Plugins/NexusPlugin/Source/NexusPlugin/Private/UnrealNexusNodeData.cpp:7-21 | a saved node is the 4-byte NodeSize followed by 2·NodeSize bytes of words |
| NodeSerial.LoadSavedWords | Plugins/NexusPlugin/Source/NexusPlugin/Private/UnrealNexusNodeData.cpp:16-21 | loading saved words gives back the saved bytes |
| NodeSerial.SaveLoadRoundTrip | Plugins/NexusPlugin/Source/NexusPlugin/Private/UnrealNexusNodeData.cpp:5-22 | loading a saved node reads back the same NodeSize and the same bytes, and ends right after them |
| NodeSerial.SerializeNodeData | Plugins/NexusPlugin/Source/NexusPlugin/Private/UnrealNexusNodeData.cpp:5-22 | the size word comes first; null memory is allocated with NodeSize bytes; saving appends SavedImage and leaves memory unchanged; loading sets NodeSize from the stream, fills the first NodeSize bytes from the words and moves past them |
| NodeSerial.SaveWords | Plugins/NexusPlugin/Source/NexusPlugin/Private/UnrealNexusNodeData.cpp:16-21 | saving appends one widened word per byte in index order and writes each byte back unchanged |
| NodeSerial.LoadWords | Plugins/NexusPlugin/Source/NexusPlugin/Private/UnrealNexusNodeData.cpp:16-21 | loading reads NodeSize words in order into the first NodeSize bytes and leaves the rest |
| RuntimeData.NexusFile.Read | Plugins/NexusPlugin/Source/NexusPlugin/Private/UnrealNexusFile.cpp:43-50 | a read returns Length and the bytes at the cursor when enough remain, and -1 otherwise |
| RuntimeData.NexusFile.Seek | Plugins/NexusPlugin/Source/NexusPlugin/Private/UnrealNexusFile.cpp:86-89 | seek moves the cursor to the given offset |
| RuntimeData.NexusFile.Map | Plugins/NexusPlugin/Source/NexusPlugin/Private/UnrealNexusFile.cpp:67-74 | a mapped region holds exactly the file bytes [From, From+Size) |
| RuntimeData.ReadRejectedAsWritten | Plugins/NexusPlugin/Source/NexusPlugin/Private/UnrealNexusData.cpp:135 | as written, the header read counts as failed only when it returns 0 |
| RuntimeData.ReadRejected | Plugins/NexusPlugin/Source/NexusPlugin/Private/UnrealNexusData.cpp:135 | corrected: the read fails unless it returns the 88 bytes asked for |
| RuntimeData.FailedReadPassesCheck | Plugins/NexusPlugin/Source/NexusPlugin/Private/UnrealNexusData.cpp:135 | read's failure value -1 passes the written check and fails the corrected one |
| RuntimeData.ParseHeaderAsWritten | Plugins/NexusPlugin/Source/NexusPlugin/Private/UnrealNexusData.cpp:125-162 | as written: with 88 bytes left it parses them; with fewer it parses whatever the stack buffer held |
| RuntimeData.ParseHeaderFromFile | Plugins/NexusPlugin/Source/NexusPlugin/Private/UnrealNexusData.cpp:125-162 | corrected: a short file gives no header; otherwise the 88 bytes at the cursor are parsed |
| RuntimeData.EmptyFileAcceptedAsWritten | Plugins/NexusPlugin/Source/NexusPlugin/Private/UnrealNexusData.cpp:133-145 | an empty file whose stack buffer holds a valid header is accepted as written and rejected when corrected |
| RuntimeData.CountIn | Plugins/NexusPlugin/Source/NexusPlugin/Private/UnrealNexusData.cpp:283-288 | the number of patches in a range naming one texture is at most the range's length |
| RuntimeData.LoadedUsesAdd | Plugins/NexusPlugin/Source/NexusPlugin/Private/UnrealNexusData.cpp:281-298 | adding a node to the loaded set adds its patches' uses of a texture to the texture's total |
| RuntimeData.LoadedUsesRemove | Plugins/NexusPlugin/Source/NexusPlugin/Private/UnrealNexusData.cpp:322-335 | removing a loaded node subtracts its uses, so load then drop restores every count |
| RuntimeData.NoneLoaded | Plugins/NexusPlugin/Source/NexusPlugin/Private/UnrealNexusData.cpp:173 | with nothing loaded, every texture's count is 0 |
| RuntimeData.NexusData.ParseHeader | Plugins/NexusPlugin/Source/NexusPlugin/Private/UnrealNexusData.cpp:125-162 | corrected, see Findings: succeeds iff the 88 bytes at the cursor exist and hold the magic; then the header is the parsed one and the cursor moved 88; on a bad magic only the magic field changes; nothing else is touched |
| RuntimeData.NexusData.InitData | Plugins/NexusPlugin/Source/NexusPlugin/Private/UnrealNexusData.cpp:164-198 | the node, patch and texture tables are the file's, read consecutively; every node image starts empty; nroots is the root count; the residency invariant holds with nothing loaded |
| RuntimeData.NexusData.SetTables | Plugins/NexusPlugin/Source/NexusPlugin/Private/UnrealNexusData.cpp:169-173 | fresh tables establish the residency invariant: distinct images, none holding memory, every texture count 0 |
| RuntimeData.NexusData.LoadIntoRam | Plugins/NexusPlugin/Source/NexusPlugin/Private/UnrealNexusData.cpp:200-301 | corrected, see Findings: a loaded node or a non-CORTO compressed signature changes nothing; otherwise the node joins LoadedNodes with a fresh RealSize buffer (the file bytes when uncompressed), its decoded views shuffled for point clouds, and each texture's count rises by the node's uses; the invariant that memory is present iff loaded and count_ram equals the loaded uses is kept |
| RuntimeData.NexusData.LoadTextures | Plugins/NexusPlugin/Source/NexusPlugin/Private/UnrealNexusData.cpp:281-298 | each texture's count_ram rises by the node's patches that name it, and a texture is mapped iff its count is positive |
| RuntimeData.NexusData.DropFromRam | Plugins/NexusPlugin/Source/NexusPlugin/Private/UnrealNexusData.cpp:303-338 | an absent node changes nothing; otherwise its memory is nulled, it leaves LoadedNodes and each texture's count falls by its uses; the residency invariant is kept |
| RuntimeData.NexusData.DropTextures | Plugins/NexusPlugin/Source/NexusPlugin/Private/UnrealNexusData.cpp:322-335 | each count_ram falls by the node's uses and a texture stays mapped iff its count is positive |
| RuntimeData.LoadNodeImage | Plugins/NexusPlugin/Source/NexusPlugin/Private/UnrealNexusData.cpp:204-278 | the node image is produced iff the signature is uncompressed or CORTO: a fresh RealSize buffer, the mapped bytes when uncompressed, with decoded views shuffled for point clouds; otherwise nothing changes |
| RuntimeData.ReadTables | Plugins/NexusPlugin/Source/NexusPlugin/Private/UnrealNexusData.cpp:175-188 | nodes, patches and textures are read back to back from the cursor |
| RuntimeData.NewNodeImages | Plugins/NexusPlugin/Source/NexusPlugin/Private/UnrealNexusData.cpp:172 | n fresh, distinct node images, none holding memory |
| RuntimeFactory.ParseHeader | Plugins/NexusPlugin/Source/NexusPlugin/Private/NexusFactory.cpp:53-90 | fewer than 88 bytes: false, nothing read; a wrong magic: false with only the magic set; otherwise true, the parsed header, cursor +88 |
| RuntimeFactory.ReadDataIntoNexusFile | Plugins/NexusPlugin/Source/NexusPlugin/Private/NexusFactory.cpp:92-95 | exactly ParseHeader's outcome |
| RuntimeFactory.InitData | Plugins/NexusPlugin/Source/NexusPlugin/Private/NexusFactory.cpp:97-130 | fresh arrays hold the file's n_nodes nodes, n_patches patches and n_textures textures read consecutively; RootsCount is the root count |
| RuntimeFactory.FillNodes | Plugins/NexusPlugin/Source/NexusPlugin/Private/NexusFactory.cpp:108-111 | the array holds the node table at the cursor |
| RuntimeFactory.FillPatches | Plugins/NexusPlugin/Source/NexusPlugin/Private/NexusFactory.cpp:113-116 | the array holds the patch table at the cursor |
| RuntimeFactory.FillTextures | Plugins/NexusPlugin/Source/NexusPlugin/Private/NexusFactory.cpp:118-121 | the array holds the texture table at the cursor |
| EditorFactory.ParseHeader | Plugins/NexusPlugin/Source/NexusPluginEditor/Private/NexusFactory.cpp:63-96 | the same three outcomes as the runtime buffer parse |
| EditorFactory.ReadDataIntoNexusFile | Plugins/NexusPlugin/Source/NexusPluginEditor/Private/NexusFactory.cpp:98-101 | exactly ParseHeader's outcome |
| EditorFactory.NodeSize | Plugins/NexusPlugin/Source/NexusPluginEditor/Private/NexusFactory.cpp:182 | with ascending offsets less than 2^32 apart, begin(i) + NodeSize(i) = begin(i+1) |
| EditorFactory.Images | Plugins/NexusPlugin/Source/NexusPluginEditor/Private/NexusFactory.cpp:170-186 | with ascending offsets the node assets, laid end to end, are exactly the file bytes from node 0 to node k: no gap, no overlap |
| EditorFactory.FreshNodes | Plugins/NexusPlugin/Source/NexusPluginEditor/Private/NexusFactory.cpp:163-167 | one entry per node record, in order, with no asset and no patches |
| EditorFactory.NexusNodes | Plugins/NexusPlugin/Source/NexusPluginEditor/Private/NexusFactory.cpp:166 | the node records in the entries, in order |
| EditorFactory.NewNodeAsset | Plugins/NexusPlugin/Source/NexusPluginEditor/Private/NexusFactory.cpp:182-185 | a fresh asset holding NodeSize bytes copied from the file at the node's begin offset |
| EditorFactory.AttachNodeAssets | Plugins/NexusPlugin/Source/NexusPluginEditor/Private/NexusFactory.cpp:170-187 | every node but the sink gets a fresh asset holding its bytes; the sink and the node records are unchanged |
| EditorFactory.AssignPatches | Plugins/NexusPlugin/Source/NexusPluginEditor/Private/NexusFactory.cpp:197-207 | every node's patch list becomes its range of the patch table in order, and the sink's stays empty |
| EditorFactory.TextureBytes | Plugins/NexusPlugin/Source/NexusPluginEditor/Private/NexusFactory.cpp:218-221 | texture i starts at its offset and, for ascending offsets, ends at texture i+1's; otherwise its size wraps modulo 2^32 |
| EditorFactory.TextureSources | Plugins/NexusPlugin/Source/NexusPluginEditor/Private/NexusFactory.cpp:215-222 | one entry per texture; every texture but the last gets its byte range, and the last gets none |
| EditorFactory.MakeTextureSources | Plugins/NexusPlugin/Source/NexusPluginEditor/Private/NexusFactory.cpp:215-222 | the loop produces TextureSources |
| EditorFactory.InitData | Plugins/NexusPlugin/Source/NexusPluginEditor/Private/NexusFactory.cpp:155-233 | the nodes are the file's records in order; each holds its patch range; each non-sink node holds an asset with its NodeSize bytes from the file; textures get their byte ranges; RootsCount is the root count; the cursor ends after the three tables |
| EditorFactory.ReadNodeAssets | Plugins/NexusPlugin/Source/NexusPluginEditor/Private/NexusFactory.cpp:162-187 | the nodes are the file's node records in order, with no patches yet; each non-sink node holds a fresh asset with its NodeSize bytes copied from its begin offset; the sink holds none |
| EditorFactory.BuildNodes | Plugins/NexusPlugin/Source/NexusPluginEditor/Private/NexusFactory.cpp:162-232 | the same nodes, each also holding its patch range from the file's patch table, and the root count of the table |
| Streaming.Max | Plugins/NexusPlugin/Source/NexusPlugin/Private/UnrealNexusComponent.cpp:363 | FMath::Max is an upper bound equal to one argument |
| Streaming.Min | Plugins/NexusPlugin/Source/NexusPlugin/Private/UnrealNexusProxy.cpp:411 | FMath::Min is a lower bound equal to one argument |
| Streaming.NodeSizeOf | Plugins/NexusPlugin/Source/NexusPlugin/Private/UnrealNexusComponent.cpp:414-419 | with ascending offsets, begin(n) + size = begin(n+1); the subtraction wraps modulo 2^64 |
| Streaming.SizeSumRemove | Plugins/NexusPlugin/Source/NexusPlugin/Private/UnrealNexusProxy.cpp:494 | the total size of a set of nodes is one member's size plus the total of the rest |
| Streaming.ChildIdsSnoc | Plugins/NexusPlugin/Source/NexusPlugin/Private/UnrealNexusComponent.cpp:336-338 | scanning one more patch adds its node to the children seen |
| Streaming.SinkCut | Plugins/NexusPlugin/Source/NexusPlugin/Private/UnrealNexusComponent.cpp:336-343 | the scan stops at the first patch that targets the sink, and every patch before it does not |
| Streaming.PopMax | Plugins/NexusPlugin/Source/NexusPlugin/Private/UnrealNexusComponent.cpp:299 | the popped element has the largest static node error in the queue, and the rest is the queue without it |
| Streaming.PopKeepsDistinct | Plugins/NexusPlugin/Source/NexusPlugin/Private/UnrealNexusComponent.cpp:299 | popping keeps ids distinct and removes exactly the popped id |
| Streaming.PopIdsBelow | Plugins/NexusPlugin/Source/NexusPlugin/Private/UnrealNexusComponent.cpp:299 | with distinct ids, the popped id is gone from the rest |
| Streaming.PopIdsAbove | Plugins/NexusPlugin/Source/NexusPlugin/Private/UnrealNexusComponent.cpp:299 | every other id stays in the rest |
| Streaming.AppendFresh | Plugins/NexusPlugin/Source/NexusPlugin/Private/UnrealNexusComponent.cpp:365 | pushing an id not yet queued keeps ids distinct and adds exactly that id |
| Streaming.PushedQueueStep | Plugins/NexusPlugin/Source/NexusPlugin/Private/UnrealNexusComponent.cpp:365 | pushing a new child extends the queue by that child, paired with its view error |
| Streaming.PushedStep | Plugins/NexusPlugin/Source/NexusPlugin/Private/UnrealNexusComponent.cpp:356-366 | adding an unvisited node marks it visited, records its instance error and pushes it once |
| Streaming.RaisedStep | Plugins/NexusPlugin/Source/NexusPlugin/Private/UnrealNexusComponent.cpp:363 | the stored error of a newly added node becomes max(its view error, the old stored error) |
| Streaming.PushedBlocked | Plugins/NexusPlugin/Source/NexusPlugin/Private/UnrealNexusComponent.cpp:344-347 | marking children blocked does not disturb what was pushed |
| Streaming.PushedNone | Plugins/NexusPlugin/Source/NexusPlugin/Private/UnrealNexusComponent.cpp:336 | before the scan nothing has been pushed |
| Streaming.QueueMembersAfterVisit | Plugins/NexusPlugin/Source/NexusPlugin/Private/UnrealNexusComponent.cpp:349-352 | after a visit, every queued id is visited, was never popped and carries its view error |
| Streaming.QueueDistinctAfterVisit | Plugins/NexusPlugin/Source/NexusPlugin/Private/UnrealNexusComponent.cpp:349-352 | children are pushed only when unvisited, so queued ids stay distinct |
| Streaming.MeasureAfterVisit | Plugins/NexusPlugin/Source/NexusPlugin/Private/UnrealNexusComponent.cpp:295-320 | each iteration visits a new node or shortens the queue, so the loop ends |
| Streaming.QueueAfterVisit | Plugins/NexusPlugin/Source/NexusPlugin/Private/UnrealNexusComponent.cpp:295-320 | one iteration keeps the queue invariant (distinct, visited, unpopped ids with their errors; roots visited) |
| Streaming.CandidatesAfterAdd | Plugins/NexusPlugin/Source/NexusPlugin/Private/UnrealNexusComponent.cpp:304-308 | appending a popped unloaded node keeps the new candidates distinct, visited and paired with their errors |
| Streaming.CandidatesAfterPop | Plugins/NexusPlugin/Source/NexusPlugin/Private/UnrealNexusComponent.cpp:304 | popping a node without a request keeps the candidate invariant |
| Streaming.ErrorsAfterVisit | Plugins/NexusPlugin/Source/NexusPlugin/Private/UnrealNexusComponent.cpp:356-366 | the stored errors stay max(0, view error) on visited nodes and 0 elsewhere |
| Streaming.IdsConcat | Plugins/NexusPlugin/Source/NexusPlugin/Private/UnrealNexusComponent.cpp:365 | the ids of two queues joined are the ids of each together |
| Streaming.QueueIdsAfterVisit | Plugins/NexusPlugin/Source/NexusPlugin/Private/UnrealNexusComponent.cpp:299-319 | after a pop and the pushes, the queued ids are the old ones without the popped id, plus the pushed ones |
| Streaming.NewIdsAppend | Plugins/NexusPlugin/Source/NexusPlugin/Private/UnrealNexusComponent.cpp:304-308 | appending one candidate adds exactly its id to the ids requested in the pass |
| Streaming.BlockedCountStep | Plugins/NexusPlugin/Source/NexusPlugin/Private/UnrealNexusComponent.cpp:310-318 | a blocked pop adds one to the number of popped, unselected nodes, and a selected pop leaves it as it was |
| Streaming.NexusComponent.constructor | Plugins/NexusPlugin/Source/NexusPlugin/Private/UnrealNexusComponent.cpp:231-239 | CalculatedErrors is n_nodes zeros, no status entries, counters and cache at zero |
| Streaming.NexusComponent.SetNodeStatus | Plugins/NexusPlugin/Source/NexusPlugin/Private/UnrealNexusComponent.cpp:254-263 | Dropped removes the entry; Pending or Loaded inserts or overwrites it; other ids are untouched; IsNodeLoaded holds iff the entry is Loaded |
| Streaming.NexusComponent.ClearErrors | Plugins/NexusPlugin/Source/NexusPlugin/Private/UnrealNexusComponent.cpp:265-271 | every stored error is 0 and the length is kept |
| Streaming.NexusComponent.GetNodeSize | Plugins/NexusPlugin/Source/NexusPlugin/Private/UnrealNexusComponent.cpp:414-419 | the node's byte size, begin(N+1) - begin(N) in uint64 |
| Streaming.NexusComponent.UnloadNode | Plugins/NexusPlugin/Source/NexusPlugin/Private/UnrealNexusComponent.cpp:421-425 | the node has no status entry afterwards, so it is not loaded |
| Streaming.NexusComponent.AddNodeToTraversal | Plugins/NexusPlugin/Source/NexusPlugin/Private/UnrealNexusComponent.cpp:356-366 | the node becomes visited, its instance error is its view error, it is pushed with that error, and its stored error becomes max(new, old) |
| Streaming.NexusComponent.AddNodeChildren | Plugins/NexusPlugin/Source/NexusPlugin/Private/UnrealNexusComponent.cpp:333-354 | the children before the first sink patch are blocked when the parent is; those not yet visited are pushed once with their errors raised |
| Streaming.NexusComponent.UpdateRemainingErrors | Plugins/NexusPlugin/Source/NexusPlugin/Private/UnrealNexusComponent.cpp:369-387 | exactly the GPU-loaded nodes whose instance error is still 0 get their view error, and their stored error becomes max(old, new); all others are unchanged |
| Streaming.NexusComponent.PopAndMark | Plugins/NexusPlugin/Source/NexusPlugin/Private/UnrealNexusComponent.cpp:298-318 | the popped element has the largest static error and leaves the queue; it is requested, with its view error, exactly when it is unloaded and fewer than MaxBlockedNodes pops were blocked; it is blocked exactly when it was marked blocked or CanNodeBeExpanded refuses it, which adds one to the blocked count, and selected otherwise; every selected node is loaded, above target error and within budget |
| Streaming.NexusComponent.VisitNext | Plugins/NexusPlugin/Source/NexusPlugin/Private/UnrealNexusComponent.cpp:298-319 | one iteration pops a node of largest error, requests, blocks or selects it as PopAndMark does, visits exactly its children (blocked with it when it is blocked) and queues exactly the unvisited ones; the queue, error and candidate invariants hold and the loop measure drops |
| Streaming.NexusComponent.TracedStep | Plugins/NexusPlugin/Source/NexusPlugin/Private/UnrealNexusComponent.cpp:298-319 | one pop keeps the traversal record: visited nodes are popped or queued, popped nodes' children are visited, unselected popped nodes' children are blocked, and the blocked count is the number of unselected pops |
| Streaming.NexusComponent.ExpandedStep | Plugins/NexusPlugin/Source/NexusPlugin/Private/UnrealNexusComponent.cpp:310-318 | a popped node that is neither blocked nor refused by CanNodeBeExpanded stays selected after one more pop |
| Streaming.NexusComponent.RoundClose | Plugins/NexusPlugin/Source/NexusPlugin/Private/UnrealNexusComponent.cpp:298-319 | from what one pop promises, the loop invariant holds again with that node popped |
| Streaming.NexusComponent.Round | Plugins/NexusPlugin/Source/NexusPlugin/Private/UnrealNexusComponent.cpp:298-319 | an iteration entered below the blocked limit keeps the loop invariant, with the popped node added, and lowers the loop measure |
| Streaming.NexusComponent.RunPass | Plugins/NexusPlugin/Source/NexusPlugin/Private/UnrealNexusComponent.cpp:295-320 | the loop stops with an empty queue or the blocked limit reached, and its invariant holds |
| Streaming.NexusComponent.PushRoots | Plugins/NexusPlugin/Source/NexusPlugin/Private/UnrealNexusComponent.cpp:284-294 | after ClearErrors and the root pushes, exactly the roots are visited and queued with their errors, nothing is popped, blocked or selected, and the blocked count is 0 |
| Streaming.NexusComponent.DoTraversal | Plugins/NexusPlugin/Source/NexusPlugin/Private/UnrealNexusComponent.cpp:274-323 | the loop ends with an empty queue or the blocked limit reached; roots are visited; every visited node was popped or is still queued; every popped node's children are visited, and blocked when it was not selected; a popped node that was not blocked and that CanNodeBeExpanded accepts is selected, and every selected node is popped, loaded, above target error and within budget; every popped unloaded node was requested, and the new candidates are distinct, popped, unloaded and carry their view error, after the old ones; the blocked count is the number of popped, unselected nodes; stored errors are max(0, view error) exactly on the reached nodes and 0 elsewhere |
| Streaming.RemoveFirst | Plugins/NexusPlugin/Source/NexusPlugin/Private/UnrealNexusProxy.cpp:377-393 | the result holds no entry the list did not hold, counted with multiplicity |
| Streaming.RemoveFirstAbsent | Plugins/NexusPlugin/Source/NexusPlugin/Private/UnrealNexusProxy.cpp:389 | removing an absent id leaves the list as it was |
| Streaming.RemoveFirstAt | Plugins/NexusPlugin/Source/NexusPlugin/Private/UnrealNexusProxy.cpp:380-392 | only the first entry with the id is removed and the order of the rest is kept |
| Streaming.Budget64 | Plugins/NexusPlugin/Source/NexusPlugin/Private/UnrealNexusProxy.cpp:309 | the int32 budget cast to uint64 is itself when non-negative and at least 2^63 when negative |
| Streaming.BestAsWritten | Plugins/NexusPlugin/Source/NexusPlugin/Private/UnrealNexusProxy.cpp:360-375 | as written, the scan returns nothing iff every candidate is loaded, and otherwise an unloaded candidate |
| Streaming.ZeroErrorNode | Plugins/NexusPlugin/Source/NexusPlugin/Private/UnrealNexusProxy.cpp:368 | a node record whose static error is 0 |
| Streaming.BestAsWrittenMissesLargestError | Plugins/NexusPlugin/Source/NexusPlugin/Private/UnrealNexusProxy.cpp:368 | with candidates of errors 10 then 5 whose node records have static error 0, the written comparison picks the one with error 5 |
| Streaming.NexusProxy.constructor | Plugins/NexusPlugin/Source/NexusPlugin/Private/UnrealNexusProxy.cpp:284-294 | no candidates, an empty GPU cache, no pending loads |
| Streaming.NexusProxy.GetLoadedNodes | Plugins/NexusPlugin/Source/NexusPlugin/Private/UnrealNexusProxy.cpp:663-668 | each key of LoadedMeshData exactly once |
| Streaming.NexusProxy.AddCandidate | Plugins/NexusPlugin/Source/NexusPlugin/Private/UnrealNexusProxy.cpp:296-299 | appends exactly one candidate |
| Streaming.NexusProxy.RemoveCandidateWithId | Plugins/NexusPlugin/Source/NexusPlugin/Private/UnrealNexusProxy.cpp:377-393 | the candidates become RemoveFirst of the old list |
| Streaming.NexusProxy.FindBestNode | Plugins/NexusPlugin/Source/NexusPlugin/Private/UnrealNexusProxy.cpp:360-375 | corrected: nothing iff every candidate is loaded; otherwise an unloaded candidate whose error is the largest among the unloaded |
| Streaming.NexusProxy.FindBestNodeAsWritten | Plugins/NexusPlugin/Source/NexusPlugin/Private/UnrealNexusProxy.cpp:360-375 | the loop computes BestAsWritten: nothing iff every candidate is loaded |
| Streaming.NexusProxy.LoadGPUData | Plugins/NexusPlugin/Source/NexusPlugin/Private/UnrealNexusProxy.cpp:471-489 | an already-loaded node changes nothing; otherwise the node is registered with its face count and the cache size grows by its size, so the cache size stays the total size of the loaded nodes |
| Streaming.NexusProxy.DropGPUData | Plugins/NexusPlugin/Source/NexusPlugin/Private/UnrealNexusProxy.cpp:491-502 | an absent node changes nothing; otherwise it leaves LoadedMeshData and the last selection, and the cache size shrinks by its size |
| Streaming.NexusProxy.UnloadNode | Plugins/NexusPlugin/Source/NexusPlugin/Private/UnrealNexusProxy.cpp:301-305 | the node loses its status entry and its GPU data, and the cache size shrinks by its size when it was on the GPU |
| Streaming.NexusProxy.WorstLoaded | Plugins/NexusPlugin/Source/NexusPlugin/Private/UnrealNexusProxy.cpp:311-325 | nothing iff nothing is loaded; otherwise a loaded node with the smallest stored error |
| Streaming.NexusProxy.Evict | Plugins/NexusPlugin/Source/NexusPlugin/Private/UnrealNexusProxy.cpp:330 | unloading the chosen worst node keeps the eviction record (only below-threshold, smallest-error nodes were evicted), shrinks the cache by its size, and happens only while the cache is over the budget |
| Streaming.NexusProxy.FreeCache | Plugins/NexusPlugin/Source/NexusPlugin/Private/UnrealNexusProxy.cpp:307-333 | only nodes whose stored error is below 0.9 times the best node's, and no larger than any node still loaded, are evicted, and only while the cache is over the draw budget: nothing is evicted when it starts within budget, the cache never grows, and the last node evicted was unloaded while the cache, its size included, was over budget; afterwards the cache fits the budget or every loaded node is at or above the threshold |
| Streaming.NexusProxy.EvictBelow | Plugins/NexusPlugin/Source/NexusPlugin/Private/UnrealNexusProxy.cpp:309-331 | the eviction loop keeps that record and the over-budget facts, and stops within budget, with nothing loaded, or at a worst node at or above the threshold |
| Streaming.NexusProxy.EvictWorst | Plugins/NexusPlugin/Source/NexusPlugin/Private/UnrealNexusProxy.cpp:311-330 | one round of the loop either stops, evicting nothing, with every loaded node at or above the threshold, or evicts the worst loaded node, so LoadedMeshData shrinks |
| Streaming.NexusProxy.BeginFrame | Plugins/NexusPlugin/Source/NexusPlugin/Private/UnrealNexusProxy.cpp:410-411 | no candidates remain, CurrentError is clamped to max(TargetError, min(MaxError, e)), so it is at least TargetError and at most MaxError when TargetError <= MaxError |
| Streaming.NexusProxy.DrainFinished | Plugins/NexusPlugin/Source/NexusPlugin/Private/UnrealNexusProxy.cpp:449-455 | every finished node is Loaded and on the GPU; other nodes keep their loaded state and status; no node but a finished one joins LoadedMeshData; the cache size stays the total of the loaded sizes |
| Streaming.NexusProxy.RequestBest | Plugins/NexusPlugin/Source/NexusPlugin/Private/UnrealNexusProxy.cpp:423-436 | with no unloaded candidate nothing changes and nothing is evicted; otherwise the best unloaded candidate leaves the list and becomes Pending, and the nodes evicted for it leave LoadedMeshData, the last selection and the status map, each with stored error below 0.9 times the best's and no larger than any node still loaded, evicted only while the cache was over budget; afterwards the cache fits the budget or every loaded node is at or above that threshold |
| Streaming.NexusProxy.Update | Plugins/NexusPlugin/Source/NexusPlugin/Private/UnrealNexusProxy.cpp:414-456 | at the pending limit or with no unloaded candidate, nothing but the last selection changes; otherwise the best candidate is removed and Pending (unless it finished at once) and every finished node is Loaded and on the GPU; the nodes evicted for it had stored error below 0.9 times the best's, were evicted only when the cache started over budget, leave the last selection, and are not loaded afterwards unless they finished |
| EdgeSlicing.AsInt32 | Plugins/NexusPlugin/Source/NexusPlugin/Private/UnrealNexusProxy.cpp:553 | storing a uint32 in an int gives a value in the int32 range, the value itself below 2^31 |
| EdgeSlicing.AsInt32Wraps | Plugins/NexusPlugin/Source/NexusPlugin/Private/UnrealNexusProxy.cpp:553 | that stored value is congruent to the uint32 modulo 2^32 |
| EdgeSlicing.SliceWellFormed | Plugins/NexusPlugin/Source/NexusPlugin/Private/UnrealNexusProxy.cpp:558-591 | every emitted range has a positive primitive count and a first index that is 3 times its first triangle |
| EdgeSlicing.RunUnion | Plugins/NexusPlugin/Source/NexusPlugin/Private/UnrealNexusProxy.cpp:547-559 | with ascending offsets, a run of consecutive patches covers exactly the triangles from the run's start to its last offset |
| EdgeSlicing.OrderedCons | Plugins/NexusPlugin/Source/NexusPlugin/Private/UnrealNexusProxy.cpp:558-595 | a range ending where the rest begins keeps the list ordered |
| EdgeSlicing.SliceOrdered | Plugins/NexusPlugin/Source/NexusPlugin/Private/UnrealNexusProxy.cpp:545-596 | with ascending triangle offsets the emitted ranges are disjoint and ascending, and none starts before the current offset |
| EdgeSlicing.SliceCovers | Plugins/NexusPlugin/Source/NexusPlugin/Private/UnrealNexusProxy.cpp:545-596 | a triangle is in an emitted range iff it belongs to an unselected patch from the current run on |
| EdgeSlicing.HeadCovers | Plugins/NexusPlugin/Source/NexusPlugin/Private/UnrealNexusProxy.cpp:558-591 | the range emitted for [Offset, EndIndex) covers exactly those triangles, and nothing when EndIndex <= Offset |
| EdgeSlicing.CoveredConcat | Plugins/NexusPlugin/Source/NexusPlugin/Private/UnrealNexusProxy.cpp:592 | the ranges of two lists together cover the union of what each covers |
| EdgeSlicing.CoveredSplit | Plugins/NexusPlugin/Source/NexusPlugin/Private/UnrealNexusProxy.cpp:547 | the triangles of unselected patches from j on are those before mid plus those from mid on |
| EdgeSlicing.SkipSelected | Plugins/NexusPlugin/Source/NexusPlugin/Private/UnrealNexusProxy.cpp:551-556 | a selected patch contributes no triangles |
| EdgeSlicing.RunCovers | Plugins/NexusPlugin/Source/NexusPlugin/Private/UnrealNexusProxy.cpp:549-595 | the run closed at patch k covers [Offset, EndIndex), and what follows is left to the patches after k |
| EdgeSlicing.EdgeRangesCover | Plugins/NexusPlugin/Source/NexusPlugin/Private/UnrealNexusProxy.cpp:545-596 | with ascending offsets, the node's ranges are ordered and cover a triangle iff it belongs to a patch whose child is not selected |
| EdgeSlicing.SliceRanges | Plugins/NexusPlugin/Source/NexusPlugin/Private/UnrealNexusProxy.cpp:545-596 | the loop with Offset and EndIndex emits EdgeRanges: ranges with positive counts and first indices that are multiples of 3, ordered and covering exactly the triangles of unselected patches when offsets ascend |
| EdgeSlicing.IsEdgeNode | Plugins/NexusPlugin/Source/NexusPlugin/Private/UnrealNexusProxy.cpp:526-536 | a node is visible iff some patch's child is not selected |
| EdgeSlicing.AppendMeshes | Plugins/NexusPlugin/Source/NexusPlugin/Private/UnrealNexusProxy.cpp:588-593 | the meshes gain exactly the node's ranges, and the rendered count stays the total of the meshes' primitives |
| EdgeSlicing.DrawEdgeNodes | Plugins/NexusPlugin/Source/NexusPlugin/Private/UnrealNexusProxy.cpp:510-599 | exactly the edge ranges of the selected, loaded, unculled, in-frustum nodes are drawn, each well-formed, and the rendered count is their total primitive count |

## Left out

- File I/O, the engine and threads are not modelled:
  - `FUnrealNexusFile` is modelled as bytes with a cursor.
  - A failed read does not advance the cursor. Its 32-bit `unsigned int` offsets and sizes for `map` and `seek` are unbounded.
  - `open`, `write`, `size` and `unmap` are not part of this model. `FUnrealNexusData::Init` at UnrealNexusData.cpp:340-344 is only file opening followed by `ParseHeader` and `InitData`, which are modelled one by one.
- Textures are not modelled:
  - JPEG and texture creation are left out: `ReadTextureFromBuffer` and `loadImageFromData`.
  - Only each texture's byte range and its reference count are modelled.
  - The width·height·4 RAM report in `DropFromRam` is a log-only value and is left out.
- The corto decoder and `Array_Shuffle` are foreign code. Their output is a parameter: the decoded views, and the draws of a Fisher–Yates shuffle.
- Floating-point computation is left out:
  - `CalculateErrorForNode`, the camera (`UpdateCameraView`, `LastCameraInfo`) and the frustum test are parameters (`viewError`, `inFrustum`).
  - Errors are reals, so float rounding, NaN and the 0.9f product's rounding are not modelled.
- Deferral is not modelled:
  - Render commands (`ENQUEUE_RENDER_COMMAND`) take effect at once, so the window in which `DropGPUData` has already shrunk the cache size but not yet removed the node is not modelled.
  - The asynchronous load, the job thread and its queue are not modelled. The nodes it finished are a parameter of `Update` and `DrainFinished`.
  - `TickComponent`'s own drain loop (UnrealNexusComponent.cpp:405-411) does what `DrainFinished` does.
- `Wire.FloatValue`: a pattern with exponent 255 (an infinity or a NaN) reads as 0.0, since reals have no infinity. A node whose error is +infinity therefore ranks as error 0 in the traversal heap (`StaticError`) and in `FindBestNode`'s comparison, where the engine ranks it above every finite error. The model assumes finite node errors.
- `NodeDecode.NodeData`: the position, normal and colour views are fields of their own and are not tied to the bytes of `memory`. The texture-coordinate view (`setUvs`, NexusUtils.cpp:85-86) and the face index (`setIndex`, NexusUtils.cpp:87-88) are not modelled. So the point-cloud shuffle, which permutes positions, normals and colours but not texture coordinates, cannot show texture coordinates left in the old order.
- The node and patch tables are assumed to be a well-formed Nexus DAG (`Dag.WellFormedDag`): at least one node (the sink), ascending `first_patch`, the last node's `first_patch` within the patch table, and every `patch.node` below `n_nodes`. The members below require it, so the root scan (NexusFactory.cpp:124-129) outside that format is not modelled.
- `Dag.CountRoots`: requires a well-formed DAG. Without it the scan gives 0 for `n_nodes` = 0, a `patch.node` at or above `n_nodes` never lowers the count, and `Nodes[j+1]` is read past the end of the table when no patch lowers the count.
- `RuntimeFactory.InitData`: requires a well-formed DAG for its root count, for the reasons given under `Dag.CountRoots`.
- `RuntimeData.NexusData.InitData`: requires a well-formed DAG for its root count and residency invariant, for the reasons given under `Dag.CountRoots`.
- `EditorFactory.InitData`: requires a well-formed DAG for its root count and node sizes, for the reasons given under `Dag.CountRoots`.
- `Streaming.NexusComponent.DoTraversal`: `RequestedCount` is counted but never read, so the pass does not sum it. `VisitNext` still returns each pop's contribution.
- `Streaming.NexusProxy.BeginFrame`: the FPS-ratio adaptation (UnrealNexusProxy.cpp:397-409) is floating-point timing and is left out. Only the candidate reset and the final clamp are modelled.
- `Streaming.NexusProxy.LoadGPUData`: `PendingCount` is incremented and decremented inside the same render command, so it is unchanged afterwards. That is modelled as written, which means the gate in `Update` never closes through it.
- `Streaming.NexusProxy.LoadGPUData` and `DropGPUData`: `CurrentCacheSize` is an unbounded integer. The uint64 wrap-around of its += and -= is not modelled, because the cache invariant keeps it equal to a sum of sizes.
- `Streaming.NexusProxy.FreeCache`: the `LoadedMeshData.Contains` early return (UnrealNexusProxy.cpp:317) never fires on keys just taken from the map, so it is omitted.
- `Streaming.PopMax`: among elements with equal static error, the engine heap's choice is not modelled. Any maximum may be popped.
- `Streaming.NexusProxy.Update`: finished jobs are drained only when a best node was found, as written.
- The component's `NexusLoadedAsset->UnloadNode` (the asset-side drop) is engine asset handling and is not modelled. `check`/`checkf` assertions are not modelled.
- Sink patch ranges: where the root scans read `Nodes[j+1]` or `last_patch()` for the last node, the model gives the sink an empty patch range rather than reading past the table. `DrawEdgeNodes` reads `Nodes[Id + 1]` for every drawn node, so the model requires that node to exist.
- `EditorFactory.InitData` requires an empty node list on entry. The factory always starts from a new asset.
- The editor's `FactoryCreateBinary` is left out. It calls `InitData` even after a failed header parse; the parse and `InitData` are modelled separately.
- `EdgeSlicing.SliceRanges`: `3·Offset` and `EndIndex − Offset` are computed on unbounded integers, so a 32-bit overflow of `FirstIndex` is not modelled.
- `EdgeSlicing.DrawEdgeNodes` is modelled on values, not as a proxy method. `TotalRenderedCount` is returned rather than stored. Mesh batches, materials, the wireframe setup and the GPU buffers are left out.
- `UUnrealNexusNodeData::Serialize` (UnrealNexusNodeData.cpp:24-28) runs the engine's base serializer, which is not part of this model, and then `SerializeNodeData`, which is modelled.
- `NodeSerial.SerializeNodeData`: a save with null memory allocates `NodeSize` uninitialised bytes and writes them out. The model allocates a zeroed buffer, so the saved bytes are zeros instead of indeterminate.
- `NexusCommons.cpp`'s copy of `LoadNodeData` (lines 24-96) has the same branches and shuffle as `NexusUtils.cpp`'s and is covered by `NodeDecode.LoadNodeData`.

## Findings

| source | as written | input that shows it | evidently intended | confidence | as-written member | corrected member |
|---|---|---|---|---|---|---|
| Plugins/NexusPlugin/Source/NexusPlugin/Private/NexusUtils.cpp:123 | the shuffled normals are copied back with `sizeof(vcg::Point3f) * VertCount` bytes (12 per vertex) into a `Point3s` array of 6 bytes per vertex; UnrealNexusData.cpp:267 has the same slip | any point cloud with normals and colours and VertCount ≥ 1: the copy runs through the whole colour block | copy `sizeof(vcg::Point3s) * VertCount` bytes | not executed | NodeDecode.NormalsCopyOverrunsColors | NodeDecode.NormalsCopyStaysInView |
| Plugins/NexusPlugin/Source/NexusPlugin/Private/UnrealNexusData.cpp:135 | the header read counts as failed only when `read` returns 0, but `FUnrealNexusFile::read` returns -1 on failure | an empty file: `read` returns -1, the check passes and the header is parsed from the uninitialised stack buffer | reject unless `read` returns 88 | not executed | RuntimeData.ParseHeaderAsWritten, RuntimeData.EmptyFileAcceptedAsWritten | RuntimeData.ParseHeaderFromFile |
| Plugins/NexusPlugin/Source/NexusPlugin/Private/UnrealNexusProxy.cpp:368 | a candidate's computed error is compared with the current best node's static `error` field, not with the best candidate's computed error | candidates (node 0, error 10) and (node 1, error 5) whose node records have static error 0: the scan returns node 1 | keep the unloaded candidate with the largest computed error | not executed | Streaming.BestAsWrittenMissesLargestError | Streaming.NexusProxy.FindBestNode |
