# Microwindows `.fnt` font loader, in Dafny

Microwindows can load bitmap fonts stored in its own binary `.fnt`
format. `src/engine/font_fnt.c` does this in several steps:

- It opens the file and checks the four-byte version magic `"RB11"`.
- It reads the space-padded 64-byte name and the 256-byte copyright.
- It reads seven little-endian header fields (three 16-bit values, a 16-bit pad, three 32-bit values).
- It reads three section counts (`nbits`, `noffset`, `nwidth`). It allocates the bitmap buffer always, and the offset and width buffers only when their count is nonzero.
- It fills the buffers in loops.

A missing file makes `fopen` fail, and the loader returns null at once. Every failure after the file is opened leaves through one exit. That exit closes the file and frees whatever has been allocated. `fnt_unloadfont` frees a loaded font, and `fnt_createfont` wraps a loaded record in a font handle.

The project has six modules, one per file:

- `Bytes`: the integer widths (`byte`, `u16`, `u32`) and the little-endian
  value of two and four bytes, with their encodings.
- `CStrings`: the blank-stripping done by `READSTRPAD` (`TrimRight`, `Blanked`)
  and the NUL-terminated reading done by `strlen`/`strcpy`/`strcmp` (`CString`).
- `FntFormat`: the file layout as a specification. `Decode` says what loading a byte sequence yields or why it fails. `Encode` lays a font out as a writer of the format does. Lemmas relate the two in both directions.
- `Stdio`: the C library underneath.
  - The heap is a ghost set of live blocks and a count of the requests it has refused.
  - `Malloc` may refuse any request, and each refusal is counted. An ample heap (`Heap.ample`) refuses none.
  - A `FILE` is a `Stream` object holding the file's bytes and a read position, with `Getc` and `Fread`.
  - `fopen` looks the path up in a map from names to contents.
- `FntLoader`: the loader itself, written imperatively over that state.
  - The readers `READBYTE` … `READSTRPAD` are methods on a `Stream`.
  - `MWCFONT` is the class `CFont`, whose fields are assigned one at a time.
  - Its buffers are Dafny arrays filled in `while` loops.
  - `LoadFont` is proved against `Decode`. On success the record holds exactly what `Decode` yields, and the heap has grown by exactly the record and its buffers. On failure the heap is exactly as before. Failure happens exactly when the path is absent, `Decode` fails, or an allocation is refused. The ghost result `oom` says whether a request was refused, and the heap's refusal count grows by one exactly then. With an ample heap, a file that decodes always loads.
- `Wrappers`: `Option` and `Result`.

The body of `fnt_load_font` is one function in C. Here it is split at its section comments into `ReadFont`, `ReadRecord`, `ReadName`, `ReadFontInfo`, `ReadVariable`, `ReadSizes` (one `ReadCount` per count), `ReadData` and the three fill loops. Each `goto errout` is an early return with `ok == false` that `LoadFont` turns into the shared cleanup.

## Model

| member | source | states |
|---|---|---|
| Bytes.LeShort | src/engine/font_fnt.c:121-124 | the first byte read is the low-order byte of the value and the second the high-order byte |
| Bytes.LeLong | src/engine/font_fnt.c:136-145 | the first two bytes read are the low-order half of the value and the last two the high-order half, each low byte first |
| Bytes.ShortBytes | src/engine/font_fnt.c:113-126 | the two bytes stored for a 16-bit value read back, low byte first, as that value |
| Bytes.LongBytes | src/engine/font_fnt.c:128-147 | the four bytes stored for a 32-bit value read back, lowest byte first, as that value |
| Bytes.ShortBytesOfLeShort | src/engine/font_fnt.c:113-126 | decoding two bytes loses nothing: re-encoding the value gives the same bytes |
| Bytes.LongBytesOfLeLong | src/engine/font_fnt.c:128-147 | decoding four bytes loses nothing: re-encoding the value gives the same bytes |
| CStrings.TrimRight | src/engine/font_fnt.c:165-168 | the blank-stripped field is a prefix of the field, does not end in a space, and everything cut off is a space |
| CStrings.TrimRightUnique | src/engine/font_fnt.c:165-168 | those three facts determine the stripped field: only the trailing run of spaces goes, inner spaces stay |
| CStrings.TrimRightEmpty | src/engine/font_fnt.c:165-168 | a field strips to the empty string if and only if it is all spaces |
| CStrings.TrimRightPadded | src/engine/font_fnt.c:18-20 | a string not ending in a space, padded with spaces, strips back to itself |
| CStrings.CString | src/engine/font_fnt.c:203-207 | what `strlen`/`strcpy` take from a buffer: a prefix with no NUL, followed in the buffer by a NUL if it is shorter |
| CStrings.CStringUnique | src/engine/font_fnt.c:203-207 | those facts determine the C string of a buffer |
| CStrings.Blanked | src/engine/font_fnt.c:163-169 | the buffer READSTRPAD leaves: same length, the stripped text first, NUL in every stripped position |
| CStrings.CStringOfBlanked | src/engine/font_fnt.c:201-207 | the name copied out of the blanked buffer is the stripped field cut at its first NUL |
| CStrings.CStringNoNul | src/engine/font_fnt.c:203-207 | a buffer without NUL reads back whole |
| FntFormat.Decode | src/engine/font_fnt.c:173-292 | BadMagic exactly when the first four bytes are missing or differ from "RB11"; a successful load has a complete header, reads no byte past the file, has `nbits` bitmap words, and has an offset (width) section exactly when `noffset` (`nwidth`) is nonzero, with `size` entries |
| FntFormat.MagicExact | src/engine/font_fnt.c:190-195 | the `strcmp` of the four bytes read with VERSION succeeds exactly when they are "RB11" |
| FntFormat.EncodedHeaderFields | src/engine/font_fnt.c:14-32 | a header laid out field after field is 356 bytes, and each field reads back at its fixed offset (name @4, maxwidth @324 … nwidth @352) |
| FntFormat.DecodeEncode | src/engine/font_fnt.c:14-36 | loading a well-formed file, followed by any bytes, yields every stored field as written; the offsets start right after the bitmap with no alignment gap |
| FntFormat.DecodeIsEncoding | src/engine/font_fnt.c:173-276 | conversely, whatever loads begins with the encoding of a well-formed file and loads as that file's record |
| FntFormat.DecodeTruncated | src/engine/font_fnt.c:262-273 | a file cut anywhere before the end of its last section does not load |
| FntFormat.DecodeIgnoresTrailing | src/engine/font_fnt.c:262-276 | bytes after the last section are never read |
| FntFormat.TestFileLoads | src/engine/font_fnt.c:201-265 | a sample one-glyph file of 358 bytes loads with name "Test", its one bitmap word, and no offsets or widths |
| FntFormat.FillIndices | src/engine/font_fnt.c:266-273 | every index a fill loop writes is below the section's count exactly when the count is 0 or `size` does not exceed it |
| FntFormat.OverrunAsWritten | src/engine/font_fnt.c:244-269 | a 364-byte file, a complete header with nbits 0 and nwidth 0 followed by the two offsets the loop reads, ending exactly where they end, with noffset 1 and size 2, passes every check the source makes, and its offset loop then writes entry 1 of a one-entry buffer |
| FntFormat.DecodeFillsInBounds | src/engine/font_fnt.c:244-273 | for every file the corrected loader accepts, each index the offset and width loops write lies inside the buffer allocated for it |
| FntLoader.ReadByte | src/engine/font_fnt.c:102-111 | succeeds exactly when a byte remains; returns it and advances by one |
| FntLoader.ReadShort | src/engine/font_fnt.c:113-126 | succeeds exactly when two bytes remain; returns their little-endian value and advances by two; at end of file the stream is exhausted |
| FntLoader.ReadLong | src/engine/font_fnt.c:128-147 | succeeds exactly when four bytes remain; returns their little-endian 32-bit value and advances by four |
| FntLoader.ReadStr | src/engine/font_fnt.c:149-154 | reads all `count` bytes exactly when that many remain, copying them into the buffer |
| FntLoader.ReadStrPad | src/engine/font_fnt.c:156-170 | returns `totlen` exactly when the whole field is present, leaving the blanked field in the buffer; otherwise 0 |
| FntLoader.Strcpy | src/engine/font_fnt.c:205-207 | the destination holds the string and then one NUL |
| FntLoader.CallocFont | src/engine/font_fnt.c:197-199 | a fresh record with every pointer null and every number zero, added to the heap, or null with the heap unchanged |
| FntLoader.ReadName | src/engine/font_fnt.c:201-207 | on success the record's name buffer holds the stripped 64-byte field at offset 4, cut at its first NUL, NUL-terminated; the heap gains only that buffer |
| FntLoader.ReadFontInfo | src/engine/font_fnt.c:213-233 | on success maxwidth, height, ascent, firstchar, defaultchar and size are the values at offsets 324, 326, 328, 332, 336, 340; the pad at 330 is consumed and dropped |
| FntLoader.ReadCount | src/engine/font_fnt.c:236-260 | on success the count is the little-endian long at the read position, and a fresh buffer of that many entries exists exactly when it is always allocated or the count is nonzero; the heap gains only that buffer |
| FntLoader.ReadSizes | src/engine/font_fnt.c:235-260 | on success the bitmap buffer exists with `nbits` entries even for 0, and the offset (width) buffer exists exactly when `noffset` (`nwidth`) is nonzero, with that many entries |
| FntLoader.FillBits | src/engine/font_fnt.c:263-265 | reads `nbits` words exactly when they are all present, storing the little-endian words in order |
| FntLoader.FillOffsets | src/engine/font_fnt.c:266-269 | reads `size` longs exactly when they are all present, storing them in order |
| FntLoader.FillWidths | src/engine/font_fnt.c:270-273 | reads `size` bytes exactly when they are all present, storing them in order |
| FntLoader.ReadData | src/engine/font_fnt.c:262-273 | succeeds exactly when the file reaches the end of its last section; bits, then offsets right after them, then widths |
| FntLoader.ReadVariable | src/engine/font_fnt.c:235-273 | from the counts on: fails only on allocation failure or when the load must fail; on success the record is the decoded font |
| FntLoader.ReadRecord | src/engine/font_fnt.c:201-273 | after the record is allocated: fails only on allocation failure or when the load must fail; on success the record is the decoded font |
| FntLoader.ReadFont | src/engine/font_fnt.c:190-273 | the body between fopen and fclose: with no record the heap is unchanged; with one the heap holds exactly it and its buffers |
| FntLoader.LoadedImage | src/engine/font_fnt.c:201-273 | what the loader stored field by field is the image `Decode` yields |
| FntLoader.MallocCoreFont | src/engine/font_fnt.c:68 | a fresh handle added to the heap, or null only when the heap refuses, which is counted |
| FntLoader.FreeRecord | src/engine/font_fnt.c:278-291 | frees exactly the record and the buffers it points to |
| FntLoader.LoadFont | src/engine/font_fnt.c:173-292 | returns a record exactly when the file exists, it decodes, and no allocation was refused; always when the heap is ample; a refusal is counted once; the record's image is the decoded font; the heap grows by exactly its blocks, none previously live; on every failure the file is closed and the heap is as before |
| FntLoader.UnloadFont | src/engine/font_fnt.c:80-100 | frees each present buffer, the record, and the handle, and nothing else |
| FntLoader.CreateFontAsWritten | src/engine/font_fnt.c:57-78 | as written: the record loads exactly when the file decodes and no allocation is refused; when the handle is then refused (a counted refusal by a heap that is not ample), null is returned while blocks of the record stay allocated |
| FntLoader.WrapFont | src/engine/font_fnt.c:68-76 | corrected: a fresh handle with size, rotation and attributes 0, name "FNT", pointing to the record; when the handle is refused, the record and all its buffers are freed |
| FntLoader.CreateFont | src/engine/font_fnt.c:57-78 | a handle with size, rotation and attributes 0, name "FNT", and the loaded record; returned exactly when the file decodes and no allocation was refused, so always when the heap is ample; on failure the heap is as before |

## Left out

- The `fnt_fontprocs` table and `gen_getfontinfo`, `gen_gettextsize`, `gen_gettextbits` and `corefont_drawtext` are not modelled. They are calls into other files (`genfont.h`, `devfont.h`), which are not part of this model. `CoreFont` has no procedure-table field for the same reason.
- The file system is a map from path to contents. `fopen` fails exactly when the path is absent. Read errors other than end of file are not distinguished, as `getc` reports both as EOF.
- FntLoader.ReadLong: the source computes `c << 24` as an `int` and ors it into an `unsigned long`. On an LP64 platform a top byte of 0x80 or more sign-extends into the upper 32 bits. The model returns the unsigned 32-bit value the format intends.
- FntLoader.ReadStrPad: the source's loop tests `*p == ' '` before `p >= buf`, so an all-space field reads `buf[-1]`. The model trims backwards with the bounds test first.
- FntLoader.ReadStrPad: the NUL the source writes at `buf[totlen]` is not modelled. The callers' buffers are one byte longer than the field, and the stripped field read as a C string is the same either way.
- FntLoader.ReadSizes: the `nbits * sizeof(MWIMAGEBITS)` and similar size products, and the `int i` loop index compared with an `unsigned long` count, are taken as not overflowing. Counts are below 2^32 and Dafny arrays are unbounded.
- Allocation failure is nondeterministic. A heap that is not ample may refuse any `malloc`/`calloc`, including `malloc(0)` for `nbits == 0`. Each refusal is counted, and the ghost `oom` result of `LoadFont` and `CreateFont` says whether one happened. Which request is refused, and why, is not modelled.
- The format comment at line 33 mentions padding the bitmap to a 32-bit boundary. The code skips no padding, and the model follows the code: offsets start right after the `2 * nbits` bitmap bytes.
- FntLoader.LoadFont: the contract states that the record's blocks were not live before the load, rather than that they are freshly allocated objects.
- The `height` and `attr` arguments of `fnt_createfont` are unused by the source and are not parameters of `CreateFont`.
- The local `version`, `name` and `copyright` buffers of `fnt_load_font` are stack arrays, not heap blocks, so they are not in the heap's live set.

## Findings

| source | as written | input that shows it | evidently intended | confidence | as-written member | corrected member |
|---|---|---|---|---|---|---|
| src/engine/font_fnt.c:244-273 | the offset and width buffers get `noffset` and `nwidth` entries, but the fill loops write `size` entries whenever the count is nonzero; the counts are never compared with `size` | a complete header with size 2, noffset 1, nwidth 0 (FntFormat.OverrunFile): the loop writes `offset[1]` past a one-entry buffer | a header whose nonzero offset or width count is below `size` is refused; `Decode` fails with `Overrun` and `LoadFont` frees everything | medium, not executed | FntFormat.OverrunAsWritten | FntFormat.DecodeFillsInBounds |
| src/engine/font_fnt.c:68-71 | when the handle cannot be allocated, `free(cfont)` frees the record but not its name, bits, offset or width buffers, which stay allocated with nothing pointing to them | any file that loads, with the `malloc` of the `MWCOREFONT` failing | free the whole record as `fnt_unloadfont` does, leaving the heap as before | high, not executed | FntLoader.CreateFontAsWritten | FntLoader.CreateFont |
