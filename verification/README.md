# Fight engine core, modelled in Dafny

This project models the deterministic core of a 2D fighting-game engine
(Vulkan renderer, frame-data editor and asset tools) and proves properties of
that model. GPU, window, Lua, audio-library and network plumbing are left
out. The sequential logic underneath is modelled as pure functions over
byte sequences, maps and small records, in four groups.

- **Asset formats and packing.**
  - `bytes.dfy` (`Bytes`): little-endian encoding and decoding and the shared `Result`/`Option` types.
  - `palette.dfy` (`PaletteCompiler`): the `.pal4` palette compiler.
  - `gfx_handler.dfy` (`GfxHandler`): texture-slot encoding, the vertex-file parser, the palette reader, texture ordering and the virtual-id lookup.
  - `image.dfy` (`Image`): LZS3 and raw image headers, the loaders and the raw writer.
  - `framedata_io.dfy` (`FramedataIo`): the legacy `.char` format and the `.fd` loader checks.
  - `framedata.dfy` (`EngineFramedata`): the engine's box regrouping.
  - `pack_image.dfy` (`PackImage`) and `atlas.dfy` (`PackAtlas`): the chunk-based texture-atlas packers.
- **Buffer and layout arithmetic.**
  - `vertex_buffer.dfy` (`VertexBuffer`) and `vao.dfy` (`Vao`): range builders.
  - `bits.dfy` (`Bits`) and `renderer.dfy` (`Renderer`): the frame cycle, the `shouldDraw` state, texture formats and alignment.
  - `pipeline_builder.dfy` (`PipelineBuilder`) and `pipeset.dfy` (`PipeSets`): specialisation, vertex-input and push-constant layouts, descriptor-binding merge, descriptor-set indexing and descriptor writes.
  - `hitbox_renderer.dfy` (`HitboxRendering`): the static index buffer and hitbox vertex accumulation.
- **Game rules.**
  - `actor.dfy` (`Actors`) and `command_inputs.dfy` (`CommandInputs`): flags, defaults and the input buffer.
  - `chara.dfy` (`Chara`): hit resolution, cancel table, input mirroring, `RandomInt`, wall contact, draw list and child culling.
  - `battle_scene.dfy` (`BattleScene`): frame loop, key handler, pause/step gate, save/load and the replay file.
  - `audio.dfy` (`Audio`): the sound alias table and per-frame stagger.
- **Editor navigation.**
  - `main_frame.dfy` (`FrameTool`): the frame editor's cursor, drag and zoom.

C++ fixed-width integers are unbounded in Dafny. Where the source's width
matters, the wrap-around is written out (`uint32_t` products, `size_t`
subtraction stored into `int`, 64-bit `RandomInt` arithmetic). Calls into
code that is not part of this model are parameters of the functions:
- LZ4, PNG decoding, the serialiser behind `.fd` files and the SPIR-V reflection;
- file opening, and the random number;
- window events and fence results.

Three entry points are built on helpers the "## Findings" table shows to be
defective: `Image.LoadAny`, `EngineFramedata.LoadSequences` and
`PackImage.CalculateChunks`. Each follows the code as written. A
`…Corrected` variant of each carries the evidently intended behaviour, and a
lemma shows where the two differ (`Image.LoadAnyAcceptsWrappedSize`,
`EngineFramedata.LoadSequencesIgnoresDecodeErrors`,
`PackImage.SolidTileSpans`).

A live match is modelled in both orders of `ggpo_advance_frame` and
`++gameTicks` (`BattleScene.SaveOrder`). `BattleScene.RollbackDesyncsAsWritten`
shows what the order as written does after a rollback, and
`BattleScene.ReplayAssertionHolds` proves the replay assertion for the
corrected order.

## Model

| member | source | states |
|---|---|---|
| PaletteCompiler.Basename | tools/palettec.py:10 | the base name is the suffix of the path after its last '/', contains no '/', and is empty for a path ending in '/' |
| PaletteCompiler.ParseArgs | tools/palettec.py:5-12 | fewer than one argument after the script gives the usage message; otherwise the folder is the first argument and the output is the second argument when given, else the folder's base name plus ".pal4" |
| PaletteCompiler.ReadsFromCover | tools/palettec.py:22-24 | reads i to 255, concatenated, are exactly the table bytes from 3·i (or the end) up to byte 768 (or the end) |
| PaletteCompiler.TableReads | tools/palettec.py:22-24 | the 256 three-byte reads together return exactly the table's first min(size, 768) bytes: none skipped or repeated, a short table read to its end |
| PaletteCompiler.Compile | tools/palettec.py:17-18 | the output starts with the number of tables as a 4-byte little-endian count, and a count that does not fit in 4 bytes is an error |
| PaletteCompiler.BlockLength | tools/palettec.py:20-28 | each table contributes every RGB byte it holds, up to 768, plus one tag byte per entry: short tables are not rejected |
| PaletteCompiler.BlockAt | tools/palettec.py:22-28 | in a complete table's block, entry e's first three bytes are the table's triple unchanged and the fourth is 0x00 for entry 0 and 0xFF for every other entry |
| PaletteCompiler.CompileFull | tools/palettec.py:17-28 | N complete tables give 4 + 1024*N bytes, with byte c of entry e of table p at 4 + 1024*p + 4*e + c, in input order |
| PaletteCompiler.CompileEmpty | tools/palettec.py:17-20 | an empty folder gives just the zero count |
| PaletteCompiler.StripAlphaOfBlock | tools/palettec.py:22-28 | dropping the tag bytes from a complete table's block gives back its 768 RGB bytes |
| GfxHandler.AssignSlot | modules/common/gfx_handler.cpp:63-78 | a one-byte image gets the next non-negative slot and a four-byte image the next negative one; any other depth is skipped and leaves the counters alone |
| GfxHandler.AssignSlotsAt | modules/common/gfx_handler.cpp:49-81 | the k-th graphic's slot is the one-byte counter plus the one-byte images before it, or the four-byte counter minus one minus the four-byte images before it, or none |
| GfxHandler.AssignSlotsCounters | modules/common/gfx_handler.cpp:49-81 | after a list of graphics each counter has moved by the number of images of its depth |
| GfxHandler.DecodeSlot | modules/common/gfx_handler.cpp:264-273 | a draw uses shader 0 exactly for non-negative slots and shader 1 for negative ones |
| GfxHandler.DecodeOfEncode | modules/common/gfx_handler.cpp:264-273 | decoding the slot that names a shader's texture gives back that shader and index |
| GfxHandler.EncodeOfDecode | modules/common/gfx_handler.cpp:264-273 | every slot is the encoding of what it decodes to, so the slot sign encoding loses nothing |
| GfxHandler.SlotsDecodeToPosition | modules/common/gfx_handler.cpp:63-78 | from fresh counters, the k-th graphic is drawn with its depth's shader at its position among the images of that depth |
| GfxHandler.Draw | modules/common/gfx_handler.cpp:258-283 | an unknown virtual id draws nothing; a known one draws its real id with the shader and index its stored slot encodes |
| GfxHandler.GetVirtualId | modules/common/gfx_handler.cpp:374-382 | the result is the first key in the map's iteration order whose real id matches, and -1 when no entry matches |
| GfxHandler.ParseVertexFile | modules/common/gfx_handler.cpp:131-160 | an accepted vertex file has one chunk count and one virtual id per sprite, 48 bytes per chunk and chunk counts that fit in the file; negative counts, a byte count that overflows int and a short file are errors |
| GfxHandler.ParseOfEncode | modules/common/gfx_handler.cpp:138-154 | a written vertex file reads back as itself, whatever bytes follow it |
| GfxHandler.EncodeOfParse | modules/common/gfx_handler.cpp:138-154 | every accepted vertex file starts with the writer's encoding of what was read |
| GfxHandler.SpriteEntry | modules/common/gfx_handler.cpp:150-157 | sprite i's range is its six vertices per chunk, taken from the chunk after all earlier sprites' chunks |
| GfxHandler.SpriteLocation | modules/common/gfx_handler.cpp:156 | sprite i's first vertex is six per earlier chunk past the old end of the vertex buffer |
| GfxHandler.RegisterShape | modules/common/gfx_handler.cpp:151-160 | registering sprites appends one range each, keeps the existing ranges and grows the total by the sprites' bytes |
| GfxHandler.RegisterAt | modules/common/gfx_handler.cpp:151-160 | the range registered for sprite j is the one SpriteEntry describes |
| GfxHandler.RegisterValid | modules/common/gfx_handler.cpp:151-160 | registering sprites keeps the vertex buffer's ranges consistent |
| GfxHandler.RegisterStep | modules/common/gfx_handler.cpp:156 | the index returned for sprite i is its position after the ranges already there |
| GfxHandler.InsertNew | modules/common/gfx_handler.cpp:159 | after an insert the id is mapped: to its existing entry when it had one, else to the new one |
| GfxHandler.InsertNewKeeps | modules/common/gfx_handler.cpp:159 | an insert keeps every entry already in the id map and adds no key but the inserted id |
| GfxHandler.LoadToVertexBuffer | modules/common/gfx_handler.cpp:131-163 | each new virtual id maps to its sprite's range and the file's texture slot; earlier entries and repeated ids keep their first value |
| GfxHandler.LoadToVertexBufferLayout | modules/common/gfx_handler.cpp:144-160 | after a file, the vertex buffer holds the old ranges, then one range per sprite in file order, and stays consistent |
| GfxHandler.HeaderCount | modules/common/gfx_handler.cpp:116-117 | the palette count is the first four bytes read little-endian over an all-ones preset |
| GfxHandler.LoadPaletteFile | modules/common/gfx_handler.cpp:108-127 | a missing file or a count above 64 is an error; otherwise 1024 bytes per palette are appended, copied from after the header and zero where the file runs short |
| GfxHandler.ShortPaletteFileRejected | modules/common/gfx_handler.cpp:116-119 | a file shorter than four bytes reads as a huge count and is refused |
| GfxHandler.LoadCompiledPalettes | modules/common/gfx_handler.cpp:108-124 | the compiler's output for at most 64 complete tables loads as exactly its palette blocks, in order |
| GfxHandler.LoadExactFile | modules/common/gfx_handler.cpp:116-123 | a file holding exactly the palettes its header announces loads as its bytes after the header |
| GfxHandler.PaletteHeight | modules/common/gfx_handler.cpp:182 | the palette texture's height is one row per 1024 bytes, narrowed to 16 bits |
| GfxHandler.PaletteTextureCoversData | modules/common/gfx_handler.cpp:179-184 | for fewer than 65536 whole palettes the texture's staging size equals the palette data |
| GfxHandler.WithKey | modules/common/gfx_handler.cpp:189-191 | the textures with one sort key, in their original order |
| GfxHandler.SortTexturesIsStableSort | modules/common/gfx_handler.cpp:189-191 | the texture sort is a permutation that puts indexed textures before true-colour ones and keeps each group's order |
| GfxHandler.IndexedAreLowKey | modules/common/gfx_handler.cpp:192-194 | with the renderer's formats, the indexed textures are exactly those with the low sort key |
| GfxHandler.IndexedTexturesLead | modules/common/gfx_handler.cpp:192-236 | after sorting, position i holds an indexed texture exactly when i is below the indexed count, so each texture is bound to its shader's array |
| VertexBuffer.Prepare | modules/common/vertex_buffer.cpp:16-32 | a range is cut down to a whole number of vertices, appended after the existing ones with its first vertex at the running total divided by its stride, grows the total by its size, and its index is returned |
| VertexBuffer.PrepareValid | modules/common/vertex_buffer.cpp:16-32 | registering a range keeps the total equal to the sum of the sizes and every location equal to its offset over its stride |
| VertexBuffer.UpdateCount | modules/common/vertex_buffer.cpp:54-58 | a count of 0 rewrites the whole range; any other count is used as given |
| VertexBuffer.ElementCount | modules/common/vertex_buffer.cpp:63-66 | the element bytes written are the request, cut down to the element buffer's size |
| VertexBuffer.Load | modules/common/vertex_buffer.cpp:78-93 | the staging buffer holds the total size in bytes |
| VertexBuffer.LoadAt | modules/common/vertex_buffer.cpp:84-90 | byte j of range k lands at the sum of the sizes before it; a range with a null pointer leaves its bytes as they were |
| VertexBuffer.OffsetMultiple | modules/common/vertex_buffer.cpp:84-90 | when every size is a multiple of one stride, so is every range's offset |
| Vao.Stride | engine/vao.cpp:9-17 | a vertex is four floats (16 bytes) for F2F2 and four floats plus an int (20 bytes) for F2F2I1 |
| Vao.Create | engine/vao.cpp:5-18 | a new object has no ranges and a zero total |
| Vao.Prepare | engine/vao.cpp:26-41 | a range is cut down to a whole number of vertices at the object's stride, placed at the running total over the stride, grows the total, gets the next index, and keeps the object consistent |
| Vao.Draw | engine/vao.cpp:43-48 | a draw starts at the range's first vertex; count 0 means every whole vertex of the range |
| Vao.UpdateBuffer | engine/vao.cpp:50-57 | an update writes the given count, or the whole range for count 0 |
| Vao.Load | engine/vao.cpp:72-80 | the mapped buffer holds the total size in bytes |
| Vao.LocationIsOffset | engine/vao.cpp:37-79 | a range's location times the stride is exactly the byte offset at which Load copies it |
| Vao.DrawCoversEntry | engine/vao.cpp:43-48 | a whole-range draw covers exactly the vertices Load placed for that range |
| Vao.UpdateTargetsEntry | engine/vao.cpp:50-57 | a whole-range update rewrites exactly the bytes Load placed for that range |
| Renderer.CreateSwapchain | modules/common/vk/renderer.cpp:123-198 | on a minimised window drawing is switched off and nothing is built; otherwise a swapchain is built and drawing is switched on: afterwards drawing is on iff the window is not minimised |
| Renderer.HandleEvents | modules/common/vk/renderer.cpp:369-389 | exactly minimise, restore and resize are handled; minimise stops drawing, restore resumes it, and after a resize drawing is on iff the window is not minimised; other events change nothing |
| Renderer.DrawingFollowsLastEvent | modules/common/vk/renderer.cpp:374-385 | after a minimise, drawing is back on after the next event iff it is a restore or a resize of a window no longer minimised |
| Renderer.Acquire | modules/common/vk/renderer.cpp:398-421 | a frame may be drawn iff drawing is on, the fence did not time out and the swapchain is not out of date; only the out-of-date case changes state, and never turns drawing on |
| Renderer.Submit | modules/common/vk/renderer.cpp:423-460 | a no-op while drawing is off; otherwise the current frame moves to a different buffered frame and stays a valid index |
| Renderer.SubmitCycles | modules/common/vk/renderer.cpp:459 | k submits with drawing on advance the current frame by k modulo the number of buffered frames |
| Renderer.GetCommand | modules/common/vk/renderer.cpp:768-774 | there is no command buffer iff drawing is off, otherwise it is the current frame's |
| Renderer.TextureFormat | modules/common/vk/renderer.cpp:578-587 | compressed images get BC3, one byte per pixel R8 unsigned, four bytes sRGB colour; any other depth has no format |
| Renderer.IndexedFormatsOnly | modules/common/vk/renderer.cpp:580-585 | only an uncompressed one-byte image gets a single-channel format |
| Renderer.PaletteStagingSize | modules/common/vk/renderer.cpp:557 | a palette's staging buffer holds exactly four bytes for each of the width × height texels, and so covers both dimensions |
| Renderer.PadToAlignment | modules/common/vk/renderer.cpp:794-801 | the padded size fits in a size_t and alignment 0 leaves the size unchanged |
| Renderer.PadToAlignmentIsMask | modules/common/vk/renderer.cpp:798 | without wrap-around, masking with the complement of alignment-1 is masking with 2^64 - alignment |
| Renderer.PadToAlignmentIsRoundDown | modules/common/vk/renderer.cpp:798 | for a power-of-two alignment the mask rounds x + alignment - 1 down to a multiple of the alignment |
| Renderer.PadToAlignmentRoundsUp | modules/common/vk/renderer.cpp:794-801 | for a power-of-two alignment the result is the least multiple of the alignment that is at least the size |
| Bits.AndMask | modules/common/vk/renderer.cpp:798 | and-ing with 2^n - 2^k clears exactly the low k bits, i.e. subtracts v mod 2^k |
| Bits.Not | modules/common/vk/renderer.cpp:798 | the n-bit complement of v is 2^n - 1 - v |
| Image.Lzs3HeaderOf | modules/image/image.cpp:332-338 | the LZS3 header fields are the file's first 16 bytes read little-endian as three 32-bit words and two 16-bit sides |
| Image.ClearFlag | modules/image/image.cpp:103-106 | clearing the non-S3TC flag subtracts 0x1000 exactly when the flag bit is set, and otherwise leaves the type word alone |
| Image.Lzs3SizeCheckExact | modules/image/image.cpp:339 | when the announced size is below 2^31 the header check is exactly: type at most 4, both sides at most 16384, compressed size at most twice the size |
| Image.RawHeaderOf | modules/image/image.cpp:85-87 | the raw header is width, height and bytes per pixel as three little-endian 32-bit words |
| Image.PixelBytes32 | modules/image/image.cpp:147 | the 32-bit product equals the true pixel byte count whenever that count fits in 32 bits |
| Image.PeekBytesPerPixel | modules/image/image.cpp:89-154 | an unopenable file gives 0; a valid LZS3 header gives its flagged type or 4 for S3TC; a file under 16 bytes that fails the LZS3 check gives -1; every answer lies in -1..4 |
| Image.PngBytesPerPixel | modules/image/image.cpp:129-141 | greyscale and indexed PNGs are one byte per pixel, true colour three, grey with alpha two, anything else four |
| Image.GetMemSize | modules/image/image.cpp:75-78 | the memory size is width * height * bytes per pixel whenever the product fits in 32 bits |
| Image.WriteRaw | modules/image/image.cpp:364-378 | a raw file is the 12-byte header followed by exactly the image's memory size in pixel bytes |
| Image.LoadRawAsWritten | modules/image/image.cpp:294-319 | the loader as written: an unopenable file fails; a loaded image holds the bytes after the header and keeps the previous compressed flag |
| Image.LoadRawAcceptsWrappedSize | modules/image/image.cpp:304-306 | a 65536 x 65536 one-byte header passes the size check because the 32-bit product wraps to 0 |
| Image.LoadRaw | modules/image/image.cpp:294-319 | with the intended size check a header is rejected exactly when its true pixel count exceeds 4096*4096*16, and a loaded image's data is exactly its announced size |
| Image.LoadRawAgrees | modules/image/image.cpp:304-306 | where the true size is within the limit the as-written and corrected loaders agree |
| Image.RawRoundTrip | modules/image/image.cpp:294-319 | loading a written raw image gives the image back, trailing bytes ignored, under both loaders |
| Image.LoadLzs3 | modules/image/image.cpp:321-362 | an unopenable file fails, a bad header is rejected; a loaded image has the header's sides, exactly `size` bytes, the depth `size / (w*h)` and is compressed iff the flag is clear |
| Image.CompressedBytes | modules/image/image.cpp:343-344 | the compressed stream is the cSize bytes after the header, zero past the end of the file |
| Image.Depth | modules/image/image.cpp:355 | the depth is the size divided by the area rounded down |
| Image.LoadAny | modules/image/image.cpp:65-73 | with the raw loader as written: LZS3 wins when it loads, then PNG, then raw; loading fails iff all three fail, and an unopenable file fails |
| Image.LoadAnyCorrected | modules/image/image.cpp:65-73 | the same loader order over the corrected raw loader: loading fails iff LZS3 and PNG fail and the raw size check rejects the file |
| Image.LoadAnyAgrees | modules/image/image.cpp:304-306 | whenever the raw header's true pixel byte count is within the limit, the as-written and corrected loaders give the same result |
| Image.LoadAnyAcceptsWrappedSize | modules/image/image.cpp:67 | the 65536 x 65536 one-byte raw header, which no PNG decoder takes, is loaded by LoadAny as an image of more than 4096*4096*16 pixels, and refused by the corrected loader |
| Image.PeekAgreesWithLzs3 | modules/image/image.cpp:95-109 | whenever LoadLzs3 succeeds, peeking reports the depth the LZS3 header gives (4 for S3TC) |
| Image.PeekAgreesWithRaw | modules/image/image.cpp:143-150 | on a raw file of at least 16 bytes that no other loader takes, with depth at most 4, peeking reports the raw loader's depth |
| Image.ShortRawFileNotPeeked | modules/image/image.cpp:100-146 | the 15-byte raw file of one three-byte pixel loads with depth 3 while peeking reports -1 |
| FramedataIo.Clear | modules/common/framedata_io.cpp:184-189 | clearing leaves exactly 1000 value-initialised sequences and marks the data loaded |
| FramedataIo.Close | modules/common/framedata_io.cpp:191-195 | closing leaves no sequences and marks the data not loaded |
| FramedataIo.Decimal | modules/common/framedata_io.cpp:172 | the printed index is all decimal digits, has no leading zero unless it is 0, and spells the number |
| FramedataIo.LeadingZerosValue | modules/common/framedata_io.cpp:172 | the zero fill of `setw(3)` does not change the value the digits spell |
| FramedataIo.HasScript | modules/common/framedata_io.cpp:174-180 | the flag is set iff some frame of the sequence has a non-empty script |
| FramedataIo.GetDecoratedName | modules/common/framedata_io.cpp:167-182 | the script flag is set iff some frame has a script, and the text holds at least three digits, the separator and the name |
| FramedataIo.DecoratedNameReadsBack | modules/common/framedata_io.cpp:172 | the decorated name is the index zero-padded to at least three digits spelling n, then " - ", then exactly the sequence's name |
| FramedataIo.UnpackPack16 | modules/common/framedata_io.h:22-26 | two int16 fields sharing a word are read back unchanged |
| FramedataIo.PropertyWordsRoundTrip | modules/common/framedata_io.h:11-31 | the 27-word memory image of a frame property gives every field back |
| FramedataIo.PropertyRoundTrip | modules/common/framedata_io.cpp:268 | the 108 bytes written for a frame property read back as the same property |
| FramedataIo.PropertyLayout | modules/common/framedata_io.h:11-31 | spriteIndex, flags, state and blendType sit at byte offsets 0, 20, 52 and 92, little-endian |
| FramedataIo.RelativeJumpLayout | modules/common/framedata_io.h:17 | relativeJump is the single byte at offset 16, 1 for true |
| FramedataIo.SequencePropertyRoundTrip | modules/common/framedata_io.cpp:248 | the 16 bytes written for sequence properties read back as the same properties |
| FramedataIo.EncodeStr | modules/common/framedata_io.cpp:300-302 | a string is written behind its length modulo 256, and only that many bytes of it follow |
| FramedataIo.ParseStr | modules/common/framedata_io.cpp:239-242 | reading a string fails iff the length byte or the bytes it announces are missing; otherwise it splits the input into length, string and rest |
| FramedataIo.StrRoundTrip | modules/common/framedata_io.cpp:239-242 | reading a written string gives its first length-mod-256 bytes and the untouched rest |
| FramedataIo.StoredInts | modules/common/framedata_io.cpp:321-331 | a box vector contributes exactly its first size-mod-256 ints |
| FramedataIo.ParseFrame | modules/common/framedata_io.cpp:253-273 | reading a frame consumes input |
| FramedataIo.ParseBoxes | modules/common/framedata_io.cpp:270-272 | the three box vectors have exactly the announced lengths and reading resumes right after them |
| FramedataIo.ParseBoxesOf | modules/common/framedata_io.cpp:270-272 | the box vectors are the little-endian ints of three consecutive byte runs |
| FramedataIo.BoxesRoundTrip | modules/common/framedata_io.cpp:329-331 | written box ints read back unchanged, leaving the rest |
| FramedataIo.StoredFrame | modules/common/framedata_io.cpp:316-331 | a stored frame keeps its properties |
| FramedataIo.FrameRoundTrip | modules/common/framedata_io.cpp:253-273 | reading a written frame gives the frame as stored (script and boxes cut to their one-byte counts) and the untouched rest |
| FramedataIo.ParseFrames | modules/common/framedata_io.cpp:252-253 | reading n frames gives exactly n frames and never more input than given |
| FramedataIo.StoredFrames | modules/common/framedata_io.cpp:312-332 | each frame is stored on its own |
| FramedataIo.FramesRoundTrip | modules/common/framedata_io.cpp:250-273 | reading the frames written gives each stored frame and the rest |
| FramedataIo.ParseSequence | modules/common/framedata_io.cpp:238-274 | reading a sequence consumes input |
| FramedataIo.ParseSequenceTail | modules/common/framedata_io.cpp:248-253 | reading the part after the names consumes input |
| FramedataIo.SequenceTailOf | modules/common/framedata_io.cpp:248-252 | after the names come 16 property bytes and the one-byte frame count |
| FramedataIo.SequenceTailRoundTrip | modules/common/framedata_io.cpp:308-311 | the written properties and frames read back with the frames cut to size mod 256 |
| FramedataIo.StoredSequence | modules/common/framedata_io.cpp:299-333 | a stored sequence keeps its properties and its first size-mod-256 frames |
| FramedataIo.SequenceRoundTrip | modules/common/framedata_io.cpp:236-274 | reading a written sequence gives the stored sequence and the rest |
| FramedataIo.ParseSequences | modules/common/framedata_io.cpp:235-236 | reading n sequences gives exactly n |
| FramedataIo.StoredSequences | modules/common/framedata_io.cpp:297-333 | each sequence is stored on its own |
| FramedataIo.SequencesRoundTrip | modules/common/framedata_io.cpp:235-274 | reading the sequences written gives each stored sequence and the rest |
| FramedataIo.EncodeHeader | modules/common/framedata_io.cpp:205-210 | the header is 40 bytes |
| FramedataIo.SaveChar | modules/common/framedata_io.cpp:281-337 | a saved file starts with the header counting the sequences |
| FramedataIo.HeaderFields | modules/common/framedata_io.cpp:291-295 | the written header carries the signature with its terminator, version 996 and the count mod 65536 |
| FramedataIo.ParseChar | modules/common/framedata_io.cpp:212-279 | an unopenable file, a signature mismatch and a version mismatch each fail with their own error; a read holds exactly the announced count of sequences |
| FramedataIo.LoadChar | modules/common/framedata_io.cpp:212-279 | a failed load leaves the data as it was; a load succeeds iff the file parses, and then holds exactly what was read and is marked loaded |
| FramedataIo.Stored | modules/common/framedata_io.cpp:292-297 | a save stores the first count-mod-65536 sequences, each as stored |
| FramedataIo.CharRoundTrip | modules/common/framedata_io.cpp:212-337 | loading a saved file succeeds and gives back what was stored, whatever was loaded before |
| FramedataIo.SequenceFitsStored | modules/common/framedata_io.cpp:310-324 | within the one-byte limits a sequence is stored unchanged |
| FramedataIo.FitsStoresAll | modules/common/framedata_io.cpp:292 | within the limits every sequence is stored unchanged |
| FramedataIo.CharRoundTripExact | modules/common/framedata_io.cpp:212-337 | within the format's limits saving then loading is the identity |
| FramedataIo.LoadFDAsWritten | modules/common/framedata_io.cpp:93-128 | the loader as written: an unopenable file or a cleanly read wrong signature fails unchanged; success needs the stream completed and the exact decompressed size, and takes whatever the decoder produced |
| FramedataIo.LoadFDIgnoresDecodeErrors | modules/common/framedata_io.cpp:121-127 | a payload the decoder rejects is still reported as loaded |
| FramedataIo.LoadFD | modules/common/framedata_io.cpp:93-128 | as above, but success also requires the decoder to report no error |
| FramedataIo.SaveFD | modules/common/framedata_io.cpp:130-157 | the header carries the current signature and version and both sizes mod 2^32, followed by the compressed serialisation |
| FramedataIo.FdRoundTrip | modules/common/framedata_io.cpp:93-157 | with a decompressor and a decoder that invert the compressor and the encoder, loading a saved file restores its sequences under both loaders |
| EngineFramedata.Regroup | engine/framedata.cpp:67-82 | a box list of 4k ints becomes k rectangles, rectangle j made of ints 4j..4j+3 in order |
| EngineFramedata.UngroupRegroup | engine/framedata.cpp:67-82 | regrouping loses nothing: the rectangles spell the original ints back |
| EngineFramedata.ColBox | engine/framedata.cpp:84-90 | the collision box is the first four ints when there are at least four, otherwise the default box |
| EngineFramedata.ConvertFrame | engine/framedata.cpp:59-90 | a frame converts iff both box lists are whole rectangles; the result keeps the properties, spells the same box ints and takes the collision box from the first four |
| EngineFramedata.ConvertFrames | engine/framedata.cpp:55-91 | the frames convert iff none is ragged, one output frame per input frame in order |
| EngineFramedata.ConvertSequence | engine/framedata.cpp:42-56 | a sequence keeps its properties and frame count, and has a function iff its name is non-empty and names a script function |
| EngineFramedata.ConvertSequences | engine/framedata.cpp:38-92 | the sequences convert iff none has a ragged frame, one output per input in order |
| EngineFramedata.LoadSequences | engine/framedata.cpp:25-95 | on the framedata loader as written: a file that does not load fails; otherwise there is one sequence per file sequence, each with as many frames |
| EngineFramedata.LoadSequencesCorrected | engine/framedata.cpp:25-95 | the same conversion over the corrected loader, which also fails when the decoder reports an error |
| EngineFramedata.LoadSequencesAgree | engine/framedata.cpp:32 | whenever the corrected loader succeeds, the program as written produces the same sequences |
| EngineFramedata.LoadSequencesIgnoresDecodeErrors | engine/framedata.cpp:32 | a file of the right size whose payload the decoder rejects gives an empty sequence list as written, while the corrected loader refuses it |
| EngineFramedata.LoadedBoxes | engine/framedata.cpp:57-90 | every loaded frame's rectangles spell the file's box ints, its collision box is the first four ints and its properties are the file's |
| PackImage.PixelInside | tools/pack_image.cpp:14-25 | every pixel of a one-byte image is at offset y*width + x inside the buffer |
| PackImage.IsChunkTrans | tools/pack_image.cpp:29-39 | the scan answers true iff every pixel of the square is transparent |
| PackImage.BoundingBoxUnique | tools/pack_image.cpp:41-95 | the bounding box the boundary scan looks for is unique |
| PackImage.ScanRow | tools/pack_image.cpp:46-53 | one row's scan finds an opaque pixel iff the row span has one |
| PackImage.ScanColumn | tools/pack_image.cpp:73-80 | one column's scan finds an opaque pixel iff the column span has one |
| PackImage.GetImageBoundaries | tools/pack_image.cpp:41-95 | an all-transparent image gives the default rectangle; otherwise the result is the smallest half-open box inside the image holding every opaque pixel, each edge touching one |
| PackImage.RowBounds | tools/pack_image.cpp:116-124 | each row a chunk copy touches lies inside the buffer and before the image's next row |
| PackImage.RowsApart | tools/pack_image.cpp:116-124 | the rows a chunk copy touches do not overlap and come in increasing order |
| PackImage.CopyRowsCopied | tools/pack_image.cpp:116-124 | after k row copies each of the first k rows holds its source row |
| PackImage.CopyRowsKeeps | tools/pack_image.cpp:116-124 | after k row copies every byte outside those rows is unchanged |
| PackImage.CopyChunk | tools/pack_image.cpp:97-127 | the copy succeeds iff the depths match and the square lies inside both images; a failure leaves the destination as it was; only the destination's buffer changes, never its size |
| PackImage.CopyChunkContents | tools/pack_image.cpp:116-124 | after a successful copy every destination row of the square holds the source row's chunkSize bytes and every other byte is unchanged |
| PackImage.CeilDiv | tools/packImage/pack_image.h:46-47 | the rounded-up count is the fewest chunks of side cs that span the distance |
| PackImage.GridInsideOfEnds | tools/pack_image.h:52-58 | a grid whose corner is non-negative and whose far ends are within the image lies inside it |
| PackImage.Place | tools/pack_image.h:40-49 | a span that passes the limit is moved back to end exactly at it, otherwise it stays |
| PackImage.ShiftedGrid | tools/pack_image.h:35-58 | a grid that is kept has the asked counts and lies inside the image, and covers a box inside the image |
| PackImage.GridAsWritten | tools/pack_image.h:27-58 | the grid as written has 1 + span/cs chunks across and up, lies inside the image when kept, and covers the box |
| PackImage.ExactFitAborts | tools/pack_image.h:32-58 | a box spanning the full width of an image whose width is a multiple of the chunk size gets one chunk too many and aborts |
| PackImage.SolidTileAborts | tools/pack_image.h:32-58 | a fully opaque 8x8 tile has the whole tile as its box and aborts with 8-pixel chunks |
| PackImage.GridUnshifted | tools/packImage/pack_image.h:40-52 | the other packer's grid starts at the box's corner with rounded-up counts and covers the box |
| PackImage.CornerPixelLeavesImage | tools/packImage/pack_image.h:40-65 | for a 10x10 image opaque only at the top-right pixel, the unshifted 8-pixel grid runs past the image |
| PackImage.CornerOpaque | tools/packImage/pack_image.h:40-65 | the corner image has exactly one opaque pixel |
| PackImage.ChunkGrid | tools/pack_image.h:27-58 | the corrected grid has rounded-up counts, lies inside the image when kept, covers a box inside the image, and is refused only when the chunks cannot fit |
| PackImage.AlignedGridFits | tools/pack_image.h:50-58 | an image whose sides are multiples of the chunk size always fits the corrected grid |
| PackImage.ScanGridRow | tools/pack_image.h:62-69 | one row of the scan appends exactly the opaque squares of that row, left to right, after the rows below |
| PackImage.GridChunks | tools/pack_image.h:60-70 | the scan lists exactly the grid squares that are not fully transparent, in scan order |
| PackImage.OpaqueInGrid | tools/pack_image.h:27-70 | a grid covering the bounding box puts every opaque pixel in one of its squares |
| PackImage.ChunksOfGrid | tools/pack_image.h:60-70 | over a grid inside the image that covers the bounding box, every listed chunk is inside and not transparent, the list is in scan order, and every opaque pixel is in a listed chunk |
| PackImage.CalculateChunks | tools/pack_image.h:27-71 | as written: the result is none exactly when the 1 + span/cs grid of the bounding box cannot be placed, which happens whenever opaque pixels span a whole side that is a multiple of the chunk size; otherwise every listed chunk is inside and not transparent, the list is in scan order, and every opaque pixel is in a listed chunk |
| PackImage.SpanningBoxAborts | tools/pack_image.h:32-58 | when opaque pixels touch both ends of a side that is a multiple of the chunk size, the bounding box spans that side and the grid as written cannot be placed |
| PackImage.ExactFitAbortsVertically | tools/pack_image.h:33-58 | a box spanning the full height of an image whose height is a multiple of the chunk size gets one chunk too many and aborts |
| PackImage.SolidTileSpans | tools/pack_image.h:27-58 | the fully opaque 8x8 tile has opaque pixels at both ends of its 8-pixel sides, so CalculateChunks aborts on it |
| PackImage.CalculateChunksCorrected | tools/pack_image.h:27-71 | with the rounded-up grid: an image with chunk-multiple sides never aborts; every listed chunk is inside and not transparent, the list is in scan order, and every opaque pixel is in a listed chunk |
| PackImage.ChannelChunks | tools/pack_image.cpp:193 | chunks per channel is the number of chunks divided by four, rounded up |
| PackImage.CompositeIndex | tools/pack_image.cpp:231-232 | composite and channel offsets of an atlas pixel lie inside their buffers |
| PackImage.CompositeAt | tools/pack_image.cpp:224-235 | byte ch of composite pixel (x, y) is pixel (x, y) of atlas ch |
| PackImage.Composite | tools/pack_image.cpp:223-235 | the composite is 1024x1024 with four bytes per pixel, and channel ch of every pixel is that pixel of atlas ch |
| PackAtlas.Unsigned | tools/pack_image.h:119 | an int in 0..2^32-1 keeps its value as uint32_t |
| PackAtlas.Advance | tools/pack_image.h:85-100 | the move fails, leaving the cursor, iff neither another square in the row nor another row fits; otherwise it steps right, or to the start of the next row, and stays inside the atlas |
| PackAtlas.Slots | tools/pack_image.h:85-100 | a valid cursor has at least its own square left |
| PackAtlas.Advanced | tools/pack_image.h:85-100 | any number of moves keeps the cursor inside the atlas |
| PackAtlas.Fits | tools/pack_image.h:102-106 | without 32-bit wrap-around, n chunks fit iff the rows left times the width less x, in chunks, is at least n |
| PackAtlas.FitsNoWrap | tools/pack_image.h:104 | for an atlas of fewer than 2^32 pixels no step of the count wraps |
| PackAtlas.AvailableIsSlots | tools/pack_image.h:102-106 | for an aligned atlas and cursor the count is exactly the squares left |
| PackAtlas.AvailableStep | tools/pack_image.h:85-106 | each move takes exactly one square off the count and keeps the cursor aligned |
| PackAtlas.AvailableLast | tools/pack_image.h:85-106 | when no move is possible exactly one square is left |
| PackAtlas.FitsCountsSquares | tools/pack_image.h:102-106 | for an aligned atlas small enough for uint32_t, n chunks fit iff n squares are left |
| PackAtlas.FitsCountsPartialColumn | tools/pack_image.h:102-106 | in a 10x8 atlas of 4-pixel squares only four squares exist, yet five chunks are said to fit |
| PackAtlas.NewAtlas | tools/packImage/pack_image.h:79-83 | a new atlas starts at the origin over its image, with the chunk size grown by two borders when bordered |
| PackAtlas.CopyChunksAsWritten | tools/pack_image.h:117-129 | the copies as written keep the atlas consistent and its cursor inside |
| PackAtlas.CopyToAtlasAsWritten | tools/pack_image.h:108-131 | an image that does not fit is refused without copying; otherwise the copies keep the atlas consistent |
| PackAtlas.AsWrittenNeedsSpare | tools/pack_image.h:117-129 | with every chunk copyable, the copies as written succeed iff there are strictly fewer chunks than squares left, and then the cursor has moved once per chunk |
| PackAtlas.LastSquareReportedAsFailure | tools/pack_image.h:108-131 | an 8x8 atlas with 8-pixel chunks fits a one-chunk image, copies it, and still reports failure |
| PackAtlas.CopyChunks | tools/pack_image.h:117-129 | the corrected copies keep the atlas consistent and its cursor inside |
| PackAtlas.CopyChunksUsesEverySquare | tools/pack_image.h:117-129 | with every chunk copyable, the corrected copies succeed iff there are no more chunks than squares left |
| PackAtlas.CopyToAtlas | tools/pack_image.h:108-131 | the corrected CopyToAtlas refuses an image with more chunks than squares left without copying, and copies every chunk of one that fits |
| PackAtlas.CopyToBorderedAtlas | tools/packImage/pack_image.h:102-122 | a coordinate is recorded for each chunk copied, for all of them on success |
| PackAtlas.BorderedUnfold | tools/packImage/pack_image.h:105-119 | one step copies the first chunk from one border before its position to the cursor, records the cursor plus the border, and moves on |
| PackAtlas.BorderedTexCoords | tools/packImage/pack_image.h:113-114 | the k-th recorded coordinate is the cursor after k moves shifted by the border |
| PackAtlas.BorderedNeedsSpare | tools/packImage/pack_image.h:102-122 | the bordered packer succeeds iff there are strictly fewer chunks than squares left |
| PackAtlas.Pack | tools/pack_image.cpp:207-221 | the current atlas never goes back and moves on at most once per image, atlases before the starting one are untouched, and every image is handled unless the atlases run out |
| PipeSets.Slot | modules/common/vk/pipeset.cpp:3-7 | the flat index exists iff the set number names a table and its start plus `which` is below maxSetIndex; it is then a valid index `which` past the set's start |
| PipeSets.Get | modules/common/vk/pipeset.cpp:3-7 | Get answers iff the flat index is valid, with the descriptor set stored there |
| PipeSets.SlotsConsecutive | modules/common/vk/pipeset.cpp:5-6 | the copies of one set number sit in consecutive slots, and every earlier copy of a readable one is readable |
| PipelineBuilder.SetSpecializationConstants | modules/common/vk/pipeline_builder.cpp:136-151 | the values are kept; entry i maps constant i to 4 bytes at the sum of the earlier entries' sizes; the data size is the sum of all sizes |
| PipelineBuilder.UniformSum | modules/common/vk/pipeline_builder.cpp:142 | k entries of 4 bytes take 4k bytes, so entry i sits at offset 4i |
| PipelineBuilder.SetInputLayout | modules/common/vk/pipeline_builder.cpp:272-314 | a non-interleaved layout is an error; an interleaved one has a single binding 0 whose stride is the sum of the format sizes, and attribute i has location i at the sum of the earlier sizes |
| PipelineBuilder.Contiguous | modules/common/vk/pipeline_builder.cpp:292-307 | consecutive attributes are back to back and the last ends at the stride |
| PipelineBuilder.SetPushConstants | modules/common/vk/pipeline_builder.cpp:316-328 | the ranges keep their stages and sizes and are placed back to back from offset 0 |
| PipelineBuilder.PushRangesAdjacent | modules/common/vk/pipeline_builder.cpp:319-324 | each push-constant range ends where the next begins |
| PipelineBuilder.MergeBinding | modules/common/vk/pipeline_builder.cpp:235-266 | a known binding only gains the stage; a new one is added with the hinted or reflected type and its count, resolved through the specialisation values when sized by one; the merge fails iff that constant does not exist |
| PipelineBuilder.MergeBindings | modules/common/vk/pipeline_builder.cpp:231-268 | the merged table holds the earlier bindings and every binding the shader reflects |
| PipelineBuilder.MergeBindingsKeeps | modules/common/vk/pipeline_builder.cpp:238-242 | a binding known before keeps its type and count and gains the stage exactly when the shader uses it |
| PipelineBuilder.WithStage | modules/common/vk/pipeline_builder.cpp:241 | adding a stage changes only the stage flags |
| PipelineBuilder.StageTwice | modules/common/vk/pipeline_builder.cpp:241 | adding the same stage twice is adding it once |
| PipelineBuilder.MergeBindingsCarriesStage | modules/common/vk/pipeline_builder.cpp:231-268 | after the merge every binding the shader uses carries its stage |
| PipelineBuilder.SetFourAccepted | modules/common/vk/pipeline_builder.cpp:234 | the set check `set <= maxSets` lets set number 4 through, one past the four tables |
| PipelineBuilder.MergeShader | modules/common/vk/pipeline_builder.cpp:228-270 | a shader using a set number past the tables is refused; otherwise four tables come back, each holding at least the bindings it had |
| PipelineBuilder.MergeBindingsIdempotent | modules/common/vk/pipeline_builder.cpp:231-268 | merging a shader's bindings a second time changes nothing |
| PipelineBuilder.AlreadyMerged | modules/common/vk/pipeline_builder.cpp:238-242 | when every reflected binding is known and already has the stage, merging leaves the table unchanged |
| PipelineBuilder.HintDescriptorType | modules/common/vk/pipeline_builder.cpp:204-211 | a hint is refused iff shaders are already set; otherwise it records the type for (set, binding) and keeps every other hint |
| PipelineBuilder.CodeWords | modules/common/vk/pipeline_builder.cpp:177 | the code buffer is the file size rounded up to whole 32-bit words |
| PipelineBuilder.SetShaders | modules/common/vk/pipeline_builder.cpp:153-202 | a vertex file that does not open is an error; one stage per non-empty path, vertex first, each carrying the specialisation info iff there are constants |
| PipelineBuilder.LoadStage | modules/common/vk/pipeline_builder.cpp:167-196 | an empty path adds nothing, an unopenable file fails, otherwise one stage with the word-rounded code size |
| PipelineBuilder.Resize | modules/common/vk/pipeline_builder.cpp:335 | the copy counts are extended with zeros or cut to four |
| PipelineBuilder.Weights | modules/common/vk/pipeline_builder.cpp:338-361 | an unused set number gets no descriptor sets; a used one gets its copy count but at least one |
| PipelineBuilder.Owners | modules/common/vk/pipeline_builder.cpp:355-360 | one descriptor set per copy of each used set number, in creation order |
| PipelineBuilder.OwnersAt | modules/common/vk/pipeline_builder.cpp:342-360 | copy `which` of set i is created at the sum of the earlier weights plus `which` |
| PipelineBuilder.SetStarts | modules/common/vk/pipeline_builder.cpp:337-343 | a used set number starts at the sum of the earlier weights; an unused one keeps its previous start |
| PipelineBuilder.BuildAsWritten | modules/common/vk/pipeline_builder.cpp:330-396 | as written, the pipe set is shaped with maxSetIndex the total weight (at most four), but only the first `accum` starts are copied and the rest are zero |
| PipelineBuilder.BuildLayout | modules/common/vk/pipeline_builder.cpp:330-396 | the build fails iff no set is created while others are cached, or more than four are needed; otherwise the sets are the owners in order, every start is copied, and there is one layout per used set number |
| PipelineBuilder.GetFindsItsSet | modules/common/vk/pipeline_builder.cpp:391-393 | with every start copied, each copy of each used set number is found by Get and belongs to that set |
| PipelineBuilder.GetReturnsWrongSet | modules/common/vk/pipeline_builder.cpp:393 | as written, with sets 0 and 3 in use once each, Get(3, 0) returns set 0's descriptor set |
| PipelineBuilder.GroupKind | modules/common/vk/pipeline_builder.cpp:441-460 | a group led by a buffer request takes buffers, any other group takes images |
| PipelineBuilder.CountTarget | modules/common/vk/pipeline_builder.cpp:410-420 | the count of requests for one target never exceeds the number of requests |
| PipelineBuilder.TakenAsWritten | modules/common/vk/pipeline_builder.cpp:441-459 | as written, an image group takes its count or the rest, but a buffer group stops after half of the remaining requests |
| PipelineBuilder.WritesFrom | modules/common/vk/pipeline_builder.cpp:422-472 | the writes point at every request from pI on exactly once, in order, and never at more payloads than they declare |
| PipelineBuilder.UpdateSetsAsWritten | modules/common/vk/pipeline_builder.cpp:403-475 | as written, the writes point at every request exactly once, in order |
| PipelineBuilder.UpdateSets | modules/common/vk/pipeline_builder.cpp:403-475 | with the bounded buffer loop, the writes point at every request exactly once, in order |
| PipelineBuilder.BufferGroupCutShort | modules/common/vk/pipeline_builder.cpp:441-449 | three buffer requests for one binding give a write declaring three descriptors that points at only two |
| PipelineBuilder.RunEnd | modules/common/vk/pipeline_builder.cpp:436-460 | a run ends at the first request with another target |
| PipelineBuilder.CountIsRun | modules/common/vk/pipeline_builder.cpp:410-436 | in grouped requests the count of a run's target is the run's length |
| PipelineBuilder.WritesCoverGroups | modules/common/vk/pipeline_builder.cpp:422-472 | with the bounded loop, grouped requests give one write per run holding exactly the run's payloads |
| PipelineBuilder.UpdateSetsCoversGroups | modules/common/vk/pipeline_builder.cpp:403-475 | on grouped requests every write of the corrected UpdateSets covers its group |
| HitboxRendering.GenerateIndices | modules/common/hitbox_renderer.cpp:15-39 | the static index buffer holds, for each of the 128 box slots, two triangles over its four vertices, then the slot's four outline segments, then the four axis vertices after the boxes |
| HitboxRendering.BoxGeometry | modules/common/hitbox_renderer.cpp:20-33 | box k's fill indices are 4k, 4k+1, 4k+2, 4k+2, 4k+3, 4k and its outline segment s joins corners s and s+1 mod 4 |
| HitboxRendering.Corner | modules/common/hitbox_renderer.cpp:143-152 | corner c of box b takes the left or right x and the bottom or top y by the corner's place, then the colour's depth and its red, green, blue |
| HitboxRendering.BoxFloatsAt | modules/common/hitbox_renderer.cpp:141-154 | float f of corner c of box b lands at 24b + 6c + f of the batch |
| HitboxRendering.NewHitboxes | modules/common/hitbox_renderer.cpp:43-53 | a new renderer has nothing accumulated and nothing to draw, the box region is untouched and the axis vertices follow it |
| HitboxRendering.Fitting | modules/common/hitbox_renderer.cpp:118-124 | the boxes written never pass the box region and are all of them unless the region is then full |
| HitboxRendering.Generate | modules/common/hitbox_renderer.cpp:109-156 | fewer than four floats clears the quad count; otherwise the accumulated count grows by the boxes that fit and only the floats between the old and new ends change |
| HitboxRendering.GenerateContents | modules/common/hitbox_renderer.cpp:140-155 | every written float is the matching corner value of its box |
| HitboxRendering.Load | modules/common/hitbox_renderer.cpp:158-164 | loading turns the accumulated floats into the quad count and empties the accumulator |
| HitboxRendering.DontDraw | modules/common/hitbox_renderer.cpp:166-169 | only the quad count is cleared |
| HitboxRendering.Draw | modules/common/hitbox_renderer.cpp:77-96 | no calls iff there is nothing to draw; otherwise a fill call of 6 indices per quad from the start and an outline call of 8 per quad from the outline region |
| HitboxRendering.DrawAxisOnly | modules/common/hitbox_renderer.cpp:98-107 | the axis call reads the four last indices |
| HitboxRendering.DrawReadsLoadedBoxes | modules/common/hitbox_renderer.cpp:89-94 | every index a draw call reads names a vertex of a loaded box |
| HitboxRendering.AxisReadsAxisVertices | modules/common/hitbox_renderer.cpp:35-52 | the axis indices name the four vertices after the boxes, which hold the axis data |
| HitboxRendering.AccumulateCounts | modules/common/hitbox_renderer.cpp:109-156 | after several batches the accumulator holds the total box count, capped at 128 |
| HitboxRendering.FittingAdds | modules/common/hitbox_renderer.cpp:118-124 | the boxes that fit after `done` capped boxes make up the capped total |
| HitboxRendering.LoadDrawsBatches | modules/common/hitbox_renderer.cpp:109-164 | from empty, batches then a load draw all their boxes up to 128 |
| HitboxRendering.GenerateAsWritten | modules/common/hitbox_renderer.cpp:111-124 | as written, a batch is written in full whenever the accumulator is below the whole buffer size, axis included |
| HitboxRendering.GenerateAgreesWhenItFits | modules/common/hitbox_renderer.cpp:118-155 | when the batch fits, the code as written and the corrected model write the same span |
| HitboxRendering.AxisOverwritten | modules/common/hitbox_renderer.cpp:121-124 | as written, a full box region still accepts one box, which overwrites the axis vertices |
| HitboxRendering.WritesPastBuffer | modules/common/hitbox_renderer.cpp:121-124 | as written, two boxes on a full box region are written past the end of the vertex buffer |
| Actors.HitFlagsIndependent | engine/actor.h:44-52 | the attack flags are distinct single bits, and `unblockable` is set exactly when the crouch, air and stand bits all are |
| Actors.CombineRecovers | engine/actor.h:151-156 | testing a flag word built from independent single-bit flags answers each flag's test with whether that flag was set |
| Actors.ActorFlagsIndependent | engine/actor.h:151-156 | the actor flags are distinct single bits, so an actor's flag word answers each flag's test with that flag's choice |
| Actors.ClearNoCollision | engine/chara.cpp:200 | starting a sequence clears the no-collision bit and keeps every other bit |
| Actors.TakeHitFlags | engine/chara.cpp:226-228 | a hit sets the no-collision bit iff it was set or the attack disables collision, and keeps every other bit |
| Actors.NoCollisionUntilNextSequence | engine/chara.cpp:200-228 | after a collision-disabling hit the characters do not push each other (the check in `Player::Collision`) until the hit character's next sequence, which restores its other flags |
| Actors.DefaultHitDef | engine/actor.h:26-39 | a fresh attack has no flags, damage, hitstop or blockstun, and blocks with its hit stop |
| Actors.BlockStop | engine/chara.cpp:104-108 | a blocked hit stops for the block stop when one is set, and for the hit stop otherwise |
| Actors.FromOrdinal | engine/actor.h:106-113 | an integer reads back as a hit type iff it is 0 to 3 |
| Actors.OrdinalRoundTrip | engine/actor.h:106-113 | a hit type stored as its integer (`comboType`) reads back as itself, and only its own integer reads back as it |
| CommandInputs.Size | engine/command_inputs.h:24 | the size in use is one past `lastLoc` |
| CommandInputs.Back | engine/command_inputs.h:16-18 | the last key is the one at index size - 1 |
| CommandInputs.SizeIgnoresVector | engine/command_inputs.h:16-24 | size and last key depend on `lastLoc`, not on how much the vector holds |
| CommandInputs.BackIsNotLastElement | engine/command_inputs.h:16-18 | with keys stored past `lastLoc`, the last key is not the vector's last element |
| CommandInputs.DefaultMotion | engine/command_inputs.h:27-37 | a default motion has no sequence, no flags, no condition and priority 0x7FFFFFFF |
| CommandInputs.BufferInHitstop | engine/chara.cpp:380-385 | during hitstop a command with a sequence replaces the kept one iff its priority value is strictly smaller; the kept priority never rises |
| CommandInputs.BufferedIsHighestPriority | engine/chara.cpp:380-385 | after any run of hitstop frames the kept command is the earlier one or one of the frames' commands, and no frame command with a sequence beats it |
| CommandInputs.AfterHitstop | engine/chara.cpp:387-392 | the frame after hitstop performs the kept command if it has a sequence, else its own, and resets the kept command to the default |
| CommandInputs.DefaultIsLowestPriority | engine/chara.cpp:383 | from the reset kept command (priority 0x7FFFFFFF, engine/command_inputs.h:36), a command is kept during hitstop iff its priority is below that default; one left at the default is dropped |
| CommandInputs.CommandFlagsIndependent | engine/command_inputs.h:88-96 | the command flags are distinct single bits, so a motion's flag word answers each flag's test with that flag's choice |
| Chara.Mirror | engine/chara.cpp:556-558 | mirroring keeps every bit but left and right, and swaps those two |
| Chara.InputRelative | engine/chara.cpp:551-560 | facing right the key is returned unchanged; facing left, left and right are swapped and every other bit kept |
| Chara.MirrorIsSwap | engine/chara.cpp:556-558 | the bit expression of the source equals swapping the two horizontal bits |
| Chara.MirrorInvolution | engine/chara.cpp:556-558 | mirroring twice gives the key back |
| Chara.BitsDetermine | engine/chara.cpp:558 | two keys that agree outside the horizontal bits and on left and right are equal |
| Chara.Cancellable | engine/chara.cpp:349-365 | type 1 always cancels, a type outside 1 to 4 never does, and before any hit only type 1 does |
| Chara.CancelTypesNest | engine/chara.cpp:353-360 | "hurt only" and "block only" exclude each other and each implies "any hit", which for every combo type but a counter-hit is exactly one of them; after a counter-hit only "any hit" (and type 1) cancels; every cancel implies type 1's |
| Chara.CancelFlags | engine/chara.cpp:346-366 | the normal and special flags are the cancel rule applied to each of the two cancel types |
| Chara.RandomInt | engine/chara.cpp:527-529 | the call fails (a division by zero) iff max - min + 1 wraps to zero in 64 bits, and otherwise gives a 64-bit value |
| Chara.RandomIntInRange | engine/chara.cpp:527-529 | for min <= max the result lies between min and max |
| Chara.QuotientBelowRange | engine/chara.cpp:528 | dividing a 32-bit value by max/range + 1 gives at most range - 1 |
| Chara.ResolveHit | engine/chara.cpp:61-170 | a tried block that guards keeps the health and takes the block stop and stun; anything else loses the damage and drops the block, taking the hit stop, or twice it plus 2 (plus 5 in the air) on a counter-hit frame |
| Chara.UnblockableNotBlocked | engine/chara.cpp:96-104 | an unblockable attack is never blocked standing, crouching or in the air |
| Chara.AlwaysBlockGuardsGround | engine/chara.cpp:84-104 | forced blocking on the ground, on a frame that can move, blocks every attack that does not hit crouchers |
| Chara.BlockNeedsBack | engine/chara.cpp:83-94 | without a block in progress or forced, a block needs back held |
| Chara.ResolveHitMirrors | engine/chara.cpp:67-83 | facing the other way with left and right swapped resolves a hit the same way |
| Chara.BoundaryCollision | engine/chara.cpp:24-58 | x is clamped 10 inside the walls; a pending wall bounce is spent on contact and releases the wall; a wall the target holds is released |
| Chara.OneCharacterPerWall | engine/chara.cpp:56-57 | a character never ends up holding the wall its target holds |
| Chara.NewCharacter | engine/chara.h:26-29 | a character starts with 10000 health, no wall, no block and no pending hurt sequence |
| Chara.InputFrame | engine/chara.cpp:338-343 | input reads the pending hurt sequence's first frame iff there is one, otherwise the current frame |
| Chara.Resize | engine/chara.h:113 | resizing keeps the old entries and fills the rest with empty slots |
| Chara.Init | engine/chara.h:111-115 | the draw list gets one slot per child of both players plus the two characters, and starts at 0 |
| Chara.DrawOrder | engine/chara.cpp:653-658 | a player's actors are drawn children last to first, then the character |
| Chara.FillDrawList | engine/chara.cpp:651-661 | the player's actors fill the slots from `middle` in draw order, nothing else changes, and the returned index holds the character |
| Chara.DrawListFilled | engine/battle_scene.cpp:192-193 | after Init and both fills the list is the actors of the player filled first (player 2, `players[1]`) then those of player 1, with every slot used |
| Chara.KeptIndices | engine/chara.cpp:620-647 | the kept positions are increasing and are exactly the flagged ones |
| Chara.FilterAt | engine/chara.cpp:620-632 | element j of the survivors is the element at the j-th kept position |
| Chara.EraseDead | engine/chara.cpp:620-632 | erasing the dead children keeps the live ones in order |
| Chara.AppendSurvivors | engine/chara.cpp:634-647 | the new children that survive are appended in order |
| Chara.UpdateChildren | engine/chara.cpp:606-649 | after an update the children are the surviving old ones then the surviving new ones, in order |
| BattleScene.NewScene | engine/battle_scene.cpp:114-116 | the loop starts at frame 0, unpaused, without boxes or a save, with player 1 holding the higher priority and the buffers in step |
| BattleScene.AiFor | engine/battle_scene.cpp:78-82 | player 2 is the AI iff the match type is at least 1, player 1 iff it is 2 |
| BattleScene.AiNeverOnlyPlayer1 | engine/battle_scene.cpp:78-82 | player 1 is never the AI alone; types above 2 behave as 1 and negative types as 0 |
| BattleScene.AdvanceFrame | engine/battle_scene.cpp:273-309 | the player with the higher priority updates first, player 1 on a tie; both buffers read the current frame, the counter grows by one and nothing else in the scene changes |
| BattleScene.FrameKeys | engine/battle_scene.cpp:285-288 | during a frame each player reads the key its buffer holds at the frame counter |
| BattleScene.Player1StartsFirst | engine/battle_scene.cpp:116 | the first frame of a match updates player 1 then player 2 |
| BattleScene.SwappedPriorities | engine/battle_scene.cpp:275-281 | swapping distinct priorities swaps the update order; on a tie player 1 goes first |
| BattleScene.Push | engine/battle_scene.cpp:165-166 | each buffer gains exactly its key at the end and nothing else changes |
| BattleScene.LocalFrame | engine/battle_scene.cpp:175-180 | a local frame advances the counter by one |
| BattleScene.OnlineFrame | engine/battle_scene.cpp:156-174 | an online frame whose input was refused changes nothing; an accepted one advances the counter by one |
| BattleScene.LocalFrameReadsPushedKeys | engine/battle_scene.cpp:175-180 | in a live frame each player reads exactly the key pushed for it, earlier keys stay, and the buffers stay in step with the counter |
| BattleScene.OnlineFrameKeepsSync | engine/battle_scene.cpp:156-174 | an online frame keeps the buffers in step with the counter |
| BattleScene.SaveState | engine/battle_scene.cpp:311-321 | the save records the counter, player 1's buffer length and the world |
| BattleScene.ResizeKeys | engine/battle_scene.cpp:327-328 | resizing keeps the keys below the new length and fills the rest with zeros |
| BattleScene.LoadState | engine/battle_scene.cpp:323-335 | without a save nothing changes; otherwise the counter and world come back, both buffers take the saved length, and nothing else changes |
| BattleScene.SaveLoadRoundTrip | engine/battle_scene.cpp:311-335 | loading a save into a later scene whose buffers only grew restores the saved counter, world and buffers exactly |
| BattleScene.LoadKeepsSync | engine/battle_scene.cpp:323-335 | loading a save taken between frames keeps the buffers in step with the counter |
| BattleScene.KeyHandle | engine/battle_scene.cpp:337-365 | only presses of the five keys are handled; H and P toggle, Space requests a step only while paused, F1 saves and F2 loads outside online play, and nothing else changes |
| BattleScene.TogglesCancel | engine/battle_scene.cpp:351-356 | pressing H or P twice restores the scene |
| BattleScene.SaveThenLoad | engine/battle_scene.cpp:343-350 | F1 then F2 in a local match leaves counter, world and buffers as they were and keeps the save |
| BattleScene.KeyHandleKeepsSync | engine/battle_scene.cpp:337-365 | no key breaks the buffers' agreement with the counter |
| BattleScene.FrameSave | engine/battle_scene.cpp:306-308 | GGPO's save holds the pushed keys and the new world; as written it keeps the old frame counter, and in the corrected order the counted one |
| BattleScene.FrameSaveBetweenFrames | engine/battle_scene.cpp:306-308 | in the corrected order GGPO's save equals what `SaveState` records once the frame is over; as written its buffer is one key longer than its counter |
| BattleScene.LiveStep | engine/battle_scene.cpp:372-387 | only an online frame that advances adds a GGPO save, exactly the one taken at the end of that frame; a rollback to a held save restores its counter and world; a local frame counts one |
| BattleScene.LiveStepKeepsSync | engine/battle_scene.cpp:372-387 | in the corrected order no key, frame or rollback breaks the agreement of the buffers, the counter and GGPO's saves |
| BattleScene.ReplayAssertionHolds | engine/battle_scene.cpp:137-262 | with GGPO told of the frame after the counter moves, whatever keys, frames and rollbacks happen in a live match, both buffers end with one key per frame, as the assertion before the replay write demands |
| BattleScene.RollbackDesyncsAsWritten | engine/battle_scene.cpp:306-308 | as written, an online frame and a rollback to its save leave the buffers one key longer than the counter; the replayed frame reads the previous frame's keys and the gap stays |
| BattleScene.FirstRollbackDesyncs | engine/battle_scene.cpp:306-308 | from the start of an online match, one frame and a rollback leave one key per buffer at frame 0 |
| BattleScene.PauseGate | engine/battle_scene.cpp:140-145 | unpaused every pass advances; paused, a pass advances iff a step was requested, and spends it |
| BattleScene.OneFramePerStep | engine/battle_scene.cpp:140-145 | while paused one Space press advances exactly one frame |
| BattleScene.StepSurvivesUnpause | engine/battle_scene.cpp:140-145 | a step requested while paused and left unused survives the unpause and is spent by the next pass |
| BattleScene.WriteReplay | engine/battle_scene.cpp:260-268 | the replay is the frame count in 8 little-endian bytes followed by 4 bytes per key of each player |
| BattleScene.ReadKeys | engine/battle_scene.cpp:61-62 | a read of n keys always gives n keys, succeeds iff 4n bytes are left, and then decodes them |
| BattleScene.ReadReplay | engine/battle_scene.cpp:47-65 | no file is NoReplayFile, fewer than 8 bytes is ShortHeader, and a read replay holds the announced number of keys per player |
| BattleScene.ReplayRoundTrip | engine/battle_scene.cpp:47-65 | reading back a written replay gives the recorded keys, whatever follows them in the file |
| BattleScene.TruncatedReplayPlaysZeros | engine/battle_scene.cpp:58-62 | a file announcing one frame with nothing after the count plays one zero key per player |
| BattleScene.StartReplay | engine/battle_scene.cpp:48-65 | playback starts at frame 0 with both buffers holding the whole recording |
| BattleScene.ReplayPass | engine/battle_scene.cpp:147-155 | a replay pass closes iff every recorded frame has been played, and otherwise advances one frame |
| BattleScene.ReplayReadsRecording | engine/battle_scene.cpp:147-155 | every frame playback advances reads keys inside the recording, and the recording is unchanged |
| BattleScene.PlayReplay | engine/battle_scene.cpp:137-155 | with no key pressed, playback reads every recorded key from the start frame on, in order, and stops at the recorded length |
| Audio.FileOf | engine/audio.cpp:41-52 | an alias plays a resource registered under its file |
| Audio.LoadSound | engine/audio.cpp:36-54 | a known alias changes nothing; a known file gets the alias on its resource; a new file is loaded once and registered under file and alias; earlier aliases, files and resources stay |
| Audio.SharedResource | engine/audio.cpp:41-46 | two aliases of one file share a single resource |
| Audio.OneResourcePerFile | engine/audio.cpp:41-52 | there are exactly as many resources as distinct files loaded |
| Audio.LoadAll | engine/audio.cpp:27-31 | loading a definition table keeps the table consistent |
| Audio.FirstFile | engine/audio.cpp:27-31 | there is no first file for an alias iff no entry names it |
| Audio.FirstEntryWins | engine/audio.cpp:27-39 | aliases defined before stay; a new alias plays the file of its first entry; an alias no entry names stays absent |
| Audio.ResourceStays | engine/audio.cpp:49-52 | loading more sounds never changes which file a resource holds |
| Audio.PlaySound | engine/audio.cpp:56-68 | a new frame resets the stagger; a known alias (and only one) is scheduled at frame time / 60 plus 0.005 per earlier call in the frame; every call counts |
| Audio.BurstSlots | engine/audio.cpp:58-67 | calls within one frame take consecutive stagger slots, the first of a new frame slot 0 |
| FrameTool.ToInt32 | tools/frametool/main_frame.cpp:172 | storing into an int keeps the low 32 bits as two's complement, and leaves values already in range alone |
| FrameTool.LastIndex | tools/frametool/main_frame.cpp:172 | `size() - 1` stored in an int is the last index, or -1 for an empty list |
| FrameTool.Clamp | tools/frametool/main_frame.cpp:169-172 | a value in range is kept, below it becomes 0, at or past the end the last index |
| FrameTool.AdvancePattern | tools/frametool/main_frame.cpp:166-174 | the sequence moves by dir clamped to the existing sequences and the frame goes back to 0 |
| FrameTool.AdvanceFrame | tools/frametool/main_frame.cpp:176-184 | the sequence stays and the frame moves by dir clamped to that sequence's frames |
| FrameTool.MovesStayOnData | tools/frametool/main_frame.cpp:166-184 | with data loaded, a one-step move either way keeps the cursor on an existing sequence and frame |
| FrameTool.PatternStepBack | tools/frametool/main_frame.cpp:166-174 | a sequence step that did not hit a bound is undone by the opposite step |
| FrameTool.EmptyDataCursor | tools/frametool/main_frame.cpp:171-172 | without data, Down leaves the sequence at -1 |
| FrameTool.HandleKeys | tools/frametool/main_frame.cpp:210-234 | the arrow keys, and only they, are handled: Up and Down move through sequences, Left and Right through frames, and only the cursor changes |
| FrameTool.KeysKeepCursorOnData | tools/frametool/main_frame.cpp:210-234 | a cursor on the data stays on it whatever key is pressed |
| FrameTool.HandleMouseDrag | tools/frametool/main_frame.cpp:192-203 | only a left drag pans, with the mouse horizontally and against it vertically; nothing else changes |
| FrameTool.DragUndo | tools/frametool/main_frame.cpp:198-202 | dragging back by the same amount undoes a drag |
| FrameTool.SetZoom | tools/frametool/main_frame.cpp:243-255 | the level is always recorded; the six menu levels set their scale and any other level keeps the scale |
| FrameTool.ZoomLevels | tools/frametool/main_frame.cpp:37-58 | the levels rise in scale, the default level 3 is twice the size, and the level saved on exit restores its scale at the next start |

## Left out

- Vulkan, OpenGL and SDL calls: command recording, barriers, swapchain recreation, fences and present. They are foreign API calls. The renderer keeps only its own bookkeeping, and window events and acquisition results are inputs.
- Networking and rollback: the GGPO session and its callbacks (engine/battle_scene.cpp:367-453) and ENet. A synchronised input pair is an input event, and so is a rollback to one of the states GGPO saved. GGPO's saves are a list with no bound on how far back a rollback reaches, although GGPO keeps only its last few frames. GGPO's own save before the first frame is covered by letting a match start with any states saved between frames. The result of `ggpo_synchronize_input` is not checked by the source and is not modelled.
- `gameTicks` is an `int` in the source. Its overflow after about a year of frames is not modelled.
- Floating point: `CalculateTransform`, the fixed-point conversions, `PremultiplyAlpha`, particles, the HUD bars and every matrix. Sound start times and zoom scales are Dafny `real`s, without float rounding.
- Lua scripting (`ScriptSetup`, `SeqFun`, the table walks in the definition loaders): values read from Lua are inputs. The sound definition table is walked in an order given as an input, because Lua's table order is not defined.
- Foreign codecs: LZ4, PNG decoding (spng), the bitsery serialiser behind `.fd` files and SPIR-V reflection are function parameters. Only the checks visible around them are modelled.
- File system and directory listings: file contents are inputs; "cannot open" is an explicit input or error.
  - The palette compiler's folder order is an input.
  - The packer's directory walk is a list of images.
- `WriteVertexData` in tools/pack_image.cpp (the atlas vertex file) is not modelled. It only formats floats for a file.
- Rendering, the HUD, particles and sound in `BattleScene::PlayLoop` are left out. The model keeps the input buffers, frame counter, key state and the world as an opaque value.
- ImGui menus, themes (`LoadTheme`), the window and the frame editor's drawing are left out.
- Any byte-level replay size is modelled with `size_t` as 8 little-endian bytes, the width on the engine's 64-bit targets.
- The OpenGL attribute setup of the engine's vertex-array object (engine/vao.cpp) is a foreign call and is left out. Only its byte layout is modelled.
- Where the source reads past the data it has, the model reports an error instead of reading indeterminate memory:
  - the image loaders' ShortRead and ZeroArea, and the vertex file's Truncated and NegativeCount;
  - FramedataIo's Truncated and NegativeBoxCount, and EngineFramedata's RaggedBoxes.
  The source either reads garbage or throws in these cases.
- Image.LoadRawAsWritten: a header whose 32-bit product reads as a negative `int` (w = 65536, h = 32768, bpp = 1 gives 2^31) passes the size check at modules/image/image.cpp:304-306. The default allocator's `new char[size]` (modules/image/image.cpp:23-26, called at :311) then throws. The model returns the error HugeAllocation instead of modelling the exception.
- FramedataIo.EncodeHeader: `SaveChar` writes a header whose signature tail after the terminator and whose two padding bytes are never initialised (modules/common/framedata_io.cpp:287-295). The model writes zeros there, so those bytes of a saved file are not promised to match.
- Image.PeekBytesPerPixel: on a file shorter than 16 bytes whose zero-padded LZS3 header fails the check, the source's first read (modules/image/image.cpp:100) has already failed the stream. The `seekg` calls at :117 and :144 do not clear that, so the raw header read at :145-146 leaves `meta` uninitialised and the result is indeterminate. The model reports -1 there and does not consult the PNG decoder.
- Image.PeekAgreesWithRaw: it requires a file of at least 16 bytes. Below that, peeking and the raw loader part ways (Image.ShortRawFileNotPeeked shows a 15-byte raw file that loads with depth 3).
- Chara.Mirror: `key::buf::LEFT`, `key::buf::RIGHT`, `key::LEFT` and `key::RIGHT` (engine/chara.cpp:556-558) are defined outside the files this model covers. The model takes them as the bits 0x4 and 0x8 and the bit indices 2 and 3, because the literal mask `~0xC` at :558 clears exactly those two bits before they are set again. Chara.InputRelative, Chara.MirrorIsSwap, Chara.MirrorInvolution and Chara.BitsDetermine rest on the same values.
- FramedataIo.ParseChar and FramedataIo.LoadChar: a file cut short after the header is reported as Truncated. The source never checks the stream after the header and returns true with partly read data.
- FramedataIo.ParseFrame: its own contract only says that input is consumed. What a frame holds is stated by the round-trip lemmas (FramedataIo.FrameRoundTrip and FramedataIo.CharRoundTrip).
- FramedataIo.ParseSequence: its own contract only says that input is consumed. Its meaning is in the round-trip lemmas.
- FramedataIo.ParseSequenceTail: its own contract only says that input is consumed. Its meaning is in the round-trip lemmas.
- FramedataIo.ParseSequences: its own contract states the count only. The contents are stated by the round-trip lemmas.
- Audio.LoadAll: its own contract states only that the table stays consistent. What it loads is stated by Audio.FirstEntryWins.
- BattleScene.LocalFrame: its own contract states only the counter. The keys it reads are stated by BattleScene.LocalFrameReadsPushedKeys.
- FrameTool.AdvanceFrame requires the cursor's sequence to exist. The source indexes the sequence list with it unchecked, so an empty list is undefined behaviour there.
- FrameTool.HandleKeys requires, for Left and Right, a cursor on an existing sequence, for the same reason.
- The C++ `assert`s below abort a debug build and are skipped in a release build. The model turns each one into an error, or into a precondition, and does not model what a release build would go on to do.
- PipelineBuilder.MergeBinding: an array size that names a specialisation constant that was not given is the error `MissingSpecConstant`. This is the assert at modules/common/vk/pipeline_builder.cpp:257. A release build reads past `specValues` there.
- PipelineBuilder.SetInputLayout: the separate-buffer layout is the error `NotInterleaved`. This is `assert(0 && "Unimplemented")` at modules/common/vk/pipeline_builder.cpp:310. A release build returns a layout with no vertex attributes.
- PipelineBuilder.BuildLayout: stale cached sets are the error `StaleCache`, and more than four sets in all is `TooManySets`. These are the asserts at modules/common/vk/pipeline_builder.cpp:374 and :392. A release build carries on building with the mismatched sets, or copies more than four set starts.
- PipelineBuilder.BuildAsWritten: it returns `StaleCache` and `TooManySets` through BuildLayout, for the same asserts.
- PipelineBuilder.WritesFrom: a grouped request of the other kind is the error `MixedKinds`. This is the asserts at modules/common/vk/pipeline_builder.cpp:446 and :456. A release build reads the other member of the payload union.
- PipelineBuilder.UpdateSets: it returns `MixedKinds` through WritesFrom, for the same asserts.
- PipelineBuilder.UpdateSetsAsWritten: it returns `MixedKinds` through WritesFrom, for the same asserts.
- PipeSets.Slot: a flat index at or past `maxSetIndex` is the error `PastLastSet`. This is the assert at modules/common/vk/pipeset.cpp:5. A set number of four or more is the error `NoSuchSet`; the source reads outside `setIndices` there, and a release build reads outside `sets` in both cases.
- PipeSets.Get: it fails with the two errors of PipeSets.Slot, for the same reasons.
- Renderer.TextureFormat: an uncompressed image whose depth is neither 1 nor 4 reaches `assert(0 && "Unsupported format: ")` (modules/common/vk/renderer.cpp:587). The model returns `None`; a release build goes on with `format` uninitialised.
- GfxHandler.ParseVertexFile: two cases are errors. `SizeOverflow` is a chunk count whose byte size `nChunks*6*size` overflows the `int` it is computed in. `ChunkOverrun` is sprites whose chunk counts add up to more than `nChunks`. At modules/common/gfx_handler.cpp:147-155 the source allocates the wrapped size for the first, and hands the vertex buffer pointers past the array for the second.
- BattleScene.ReadReplay: a replay file shorter than its 8-byte count is the error `ShortHeader`. At engine/battle_scene.cpp:46 and :57 the source goes on with a partly uninitialised `size_t inputSize`.
- FramedataIo.EncodeFrame requires `BoxCountsWritable`: the low byte of each box vector's size must be below 128. Otherwise the `int8_t` count at modules/common/framedata_io.cpp:322-331 is negative, and `sizeof(int) * bs.greens` makes the write read far past the vector.
- FramedataIo.SaveChar requires `Writable`, which asks `BoxCountsWritable` of every frame it writes, for the same reason.
- FrameTool.SetZoom: the scale before the first call is uninitialised in the source. The model takes whatever scale the view holds.
- FrameTool.HandleMouseDrag: the pan offsets are unbounded integers. `int` overflow on very long drags is not modelled.
- Audio.PlaySound: the stagger clock starts uninitialised in the source, so any starting clock is allowed. SoLoud's own failures are not modelled.
- BattleScene.LoadState: a saved state is a value in the model. The source keeps part of it by reference: `GetState` deep-copies the Lua globals (engine/chara.cpp:505), but `SetState` makes the saved table itself the live globals (engine/chara.cpp:444). After an F2 load, every later frame therefore changes the Lua part of the save, and a second F2 does not bring back the Lua globals F1 saved. The model's world has no separate Lua part, so this sharing is not modelled.
- BattleScene.SaveThenLoad: the restored world and the save that is kept hold in the model. In the source they hold only until the next frame changes the shared Lua table, for the reason given under BattleScene.LoadState.
- BattleScene.ReadReplay: a replay whose announced count would need more memory than exists is not distinguished. The vector resize would throw there.
- The engine's `BattleScene` header declares members the source file does not define. Only the definitions in engine/battle_scene.cpp are modelled.

## Findings

| source | as written | input that shows it | evidently intended | confidence | as-written member | corrected member |
|---|---|---|---|---|---|---|
| modules/image/image.cpp:304-306 | the raw size check multiplies w, h and bpp in `uint32_t`, so a wrapped product passes | w = h = 65536, bpp = 1: the product wraps to 0 and the header is accepted | reject headers whose true pixel count exceeds 4096*4096*16 | not executed | Image.LoadRawAcceptsWrappedSize | Image.LoadRaw |
| modules/common/framedata_io.cpp:121-127 | `LoadFD` reports success whatever the deserialiser's error state | a payload of the right size that the decoder rejects | fail when decoding fails | not executed | FramedataIo.LoadFDIgnoresDecodeErrors | FramedataIo.LoadFD |
| tools/pack_image.h:32-33 | the chunk grid is 1 + span/cs chunks, one too many when the span is a multiple of cs | an 8x8 fully opaque image with 8-pixel chunks: the grid is two chunks across, its shifted start is negative and packing aborts | ceil(span/cs) chunks | not executed | PackImage.ExactFitAborts | PackImage.ChunkGrid |
| tools/packImage/pack_image.h:40-52 | the ceil-division grid starts at the box's corner without shifting back inside the image | a box ending at the image edge with a span that is not a multiple of cs: the last chunk reads past the image | shift the grid so it ends inside the image | not executed | PackImage.CornerPixelLeavesImage | PackImage.ChunkGrid |
| tools/pack_image.h:117-129 | `CopyToAtlas` fails when the last chunk takes the atlas's last square, because the cursor cannot advance after it | a one-square atlas and a one-chunk image: it fits, yet the copy is reported as failed | succeed when every chunk found a square | not executed | PackAtlas.LastSquareReportedAsFailure | PackAtlas.CopyToAtlas |
| tools/pack_image.h:102-106 | `Fits` counts chunks in (rows * width - x) / cs, which includes a partial column when the width is not a multiple of cs | a 10x8 atlas of 4-pixel squares: four squares exist but five chunks are said to fit | count only whole squares | not executed | PackAtlas.FitsCountsPartialColumn | PackAtlas.CopyToAtlas |
| modules/common/vk/pipeline_builder.cpp:393 | `Build` copies only the first `accum` set starts into the pipe set | sets 0 and 3 in use once each: the start of set 3 is not copied, and Get(3, 0) returns set 0's descriptor set | copy every set start | not executed | PipelineBuilder.GetReturnsWrongSet | PipelineBuilder.GetFindsItsSet |
| modules/common/vk/pipeline_builder.cpp:234 | the set-number check is `set <= maxSets`, which admits set 4 of four tables | a shader using descriptor set 4 passes the check and indexes past the tables | `set < maxSets` | not executed | PipelineBuilder.SetFourAccepted | PipelineBuilder.MergeShader |
| modules/common/vk/pipeline_builder.cpp:444 | the buffer loop stops at `i < parameters.size() - pI` while also advancing pI, so it takes only half the remaining requests | three buffer requests for one binding: the write declares three descriptors but points at two | take `count` requests, bounded by what remains | not executed | PipelineBuilder.BufferGroupCutShort | PipelineBuilder.UpdateSetsCoversGroups |
| modules/common/hitbox_renderer.cpp:121-124 | the size clamp only decides whether to write at all; the loop writes the whole batch | a full box region and one more box overwrites the axis vertices; two more boxes write past the buffer | write only the boxes that fit | not executed | HitboxRendering.WritesPastBuffer | HitboxRendering.Generate |
| engine/battle_scene.cpp:306-308 | `ggpo_advance_frame`, whose save callback records the scene, runs before `++gameTicks`, so every state GGPO saves during a frame holds one key more than its frame counter | one online frame, then a rollback to the save it left: the buffers hold one key more than the counter, the assertion before the replay write fails when the match ends, and the replayed frame reads the previous frame's keys | call `ggpo_advance_frame` after `++gameTicks`, so that GGPO saves the scene between frames | not executed | BattleScene.RollbackDesyncsAsWritten | BattleScene.ReplayAssertionHolds |
