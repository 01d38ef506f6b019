# s-archive, atlas lookup and mixer voice table — a Dafny model

This project models four leaf components of WilliamBundy/LD41 and proves properties about them:

- **The FNV-1 hash and the block copy** (`src/wpl/wplUtil.c`). `wHashBuffer` and `wHashString` are 64-bit FNV-1. The accumulator starts at 14695981039346656037. For each byte it is multiplied by 1099511628211 and then XORed with the byte. The byte enters as a C `char`. The model fixes the signed-`char` convention of the MSVC toolchain the project targets, so a byte of 0x80 or above is sign-extended (module `Fnv`). `wCopyMemoryBlock` is a 2-D row copy between byte buffers with an optional one-element border. It is modelled on arrays, with every `memcpy` as one slice write (module `MemBlock`).
- **The s-archive package format** (`src/wpl/wpl.h`, `src/wpl/wplArchive.c`, `src/sartool/sar.c`):
  - `SarFormat` holds the packed records and their little-endian bytes.
  - `SarReader` is the zero-copy reader over the caller's byte image.
  - `SarBuilder` is the staged builder. It is a class whose three arenas are sequences that only grow.
  - `KeyedSort` and `KeyedSearch` hold the insertion sort and the binary search. The archive and the atlas share them.
  - `SarRoundTrip` proves the round trip from build through finalize and load to read.
- **The sprite-sheet parser and atlas lookup** (`not_yet_used/wbTexture.c`). `SpriteSheet` covers the cursor-driven parsers `parseSpriteSheet` and `countSpriteSheet` and their helpers. `SpriteSheetLaws` holds what a well-formed sheet parses to and how the two parsers differ at the end of the text. `Atlas` covers `segmentSort`, `atlasGetIndex` and the `atlasGet*` accessors.
- **The mixer voice table** (`src/wpl/wplMixer.c`, a reformatted copy of the voice functions of `src/wpl/thirdparty/sts_mixer.h:109-237`). Module `Mixer` models it as a class over an array of voices with three states: stopped, playing a sample, or streaming. The two files' functions are identical, so each is modelled once. The table below cites whichever copy states the property.

Behaviour that the code has, and that a reader might not expect, is kept as written:

- `wSarGetFile` tests the hash against -1, not the index. A miss therefore yields the record one entry before the table (`GetFileMiss`).
- Import allocates the description area but does not copy its bytes. The area stays zeroed (`ImportCopies`).
- Finalize never writes `archiveSize` (`FinalizeHeader`).
- A failed compression leaves an entry with an empty payload, and no error is reported (`AddFileEntry`).
- A wrong magic number or version only adds a diagnostic (`Load`, `LoadIgnoresChecks`).
- A sprite sheet that ends in a comment line makes `parseSpriteSheet` report one slot more than `countSpriteSheet` counts (`TrailingComment`).
- `localName` advances cumulatively on every `/` (`LocalNameTwoSlashes`).
- `wMixerStopSample(NULL)` also stops every stream (`StopNullStopsOtherKind`).
- An identity record is 64 bytes: an 8-byte hash, a 55-byte name and a separate `zero` byte (`EncodeId`).
- A lookup miss in `wSarGetFileData` reads the record before the table (`GetFileMiss`, `RecordFor`).
- The output buffer of `wSarGetFileData` holds `fullSize + 8` bytes, and the size is stored through an `isize*` only when `sizeOut` is non-NULL (`FileDataOf`).

`wSarHashString`, called by `src/sartool/sar.c`, is defined nowhere in these files. It is modelled as `wHashString`.

The DEFLATE codec is foreign code. The operations take it as two function parameters: a compressor that may fail and a decompressor. The only thing any proof assumes of the codec is the predicate `Codec.RoundTrips`, given as an explicit precondition: whatever compressed successfully decompresses back into a large enough buffer.

## Model

| member | source | states |
|---|---|---|
| `Fnv.HashBuffer` | src/wpl/wplUtil.c:3-11 | A non-positive length gives the basis 14695981039346656037. Otherwise the result is FNV-1 (multiply, then XOR the sign-extended byte) of the first `length` bytes. |
| `Fnv.HashString` | src/wpl/wplUtil.c:13-21 | The result is the FNV-1 hash of the bytes before the first NUL, so it equals `HashBuffer` over `strlen(s)` bytes. The empty string hashes to the basis. |
| `Fnv.HashFromIsFnv1` | src/wpl/wplUtil.c:5-9 | The front-to-back accumulator loop equals the reference definition that extends the hash by the last byte, on every input. |
| `Fnv.HashFromAppend` | src/wpl/wplUtil.c:6-9 | One more byte is exactly one more multiply-then-XOR step. |
| `Fnv.SignExtendBits` | src/wpl/wplUtil.c:8 | The promoted `char` keeps the byte in its low 8 bits and fills the upper 56 bits with copies of the byte's top bit. |
| `Fnv.SignedCharMatters` | src/wpl/wplUtil.c:17-18 | The hash of the byte 0x80 differs from the unsigned-`char` value and from FNV-1a (XOR before multiply). |
| `MemBlock.MemCopy` | src/wpl/wplUtil.c:31-34 | A `memcpy` replaces exactly the bytes `at..at+n` of the destination with the piece and leaves every other byte alone. |
| `MemBlock.CopyRowsPass` | src/wpl/wplUtil.c:30-35 | The row loop leaves the destination as `sh` row copies, in order, from source offset `((i+sy)*sw+sx)*size` to destination offset `((i+dy)*dw+dx)*size`. |
| `MemBlock.SideColumnsPass` | src/wpl/wplUtil.c:38-48 | The side-border loop copies, per row, one element into column dx-1 (read from the destination at the source coordinates) and one into column dx+sw (read from the source with stride `dw`), as the code computes them. |
| `MemBlock.TopBottomPass` | src/wpl/wplUtil.c:50-58 | The top border row is written from row dy, then the bottom border row from row dy+sh-1, each over `sw+2` elements from column dx-1. |
| `MemBlock.CopyMemoryBlock` | src/wpl/wplUtil.c:23-60 | The destination after the call is the row pass, followed by the two border passes when `border` is non-zero. |
| `MemBlock.CopiedRows` | src/wpl/wplUtil.c:30-35 | Without `border`, when destination rows do not overlap (`sw <= dw`), every destination row i < sh holds the `sw*size` source bytes of row i. |
| `MemBlock.UntouchedOutsideRows` | src/wpl/wplUtil.c:30-35 | Without `border`, no destination byte outside the `sh` copied row slices changes. |
| `MemBlock.BorderRows` | src/wpl/wplUtil.c:50-58 | With `border` (`sh >= 1`, `sw+2 <= dw`), row dy-1 equals row dy and row dy+sh equals row dy+sh-1 over `sw+2` elements from column dx-1. |
| `SarFormat.EncodeId` | src/wpl/wpl.h:133-137 | A `wSarId` (hash, 55-byte name, separate `zero` byte) occupies 64 bytes. |
| `SarFormat.EncodeFile` | src/wpl/wpl.h:139-147 | A `wSarFile` occupies 96 bytes with no padding under 4-byte packing. |
| `SarFormat.EncodeHeader` | src/wpl/wpl.h:149-160 | A `wSarHeader` occupies 128 bytes with no padding under 4-byte packing. |
| `SarFormat.MagicBytes` | src/wpl/wpl.h:123 | The magic 0x77536172 is stored as the bytes "raSw". |
| `SarFormat.IdRoundTrip` | src/wpl/wpl.h:133-137 | Reading the 64 bytes of an identifier gives back the identifier: hash, name and zero byte at their offsets. |
| `SarFormat.IdBytesRoundTrip` | src/wpl/wpl.h:133-137 | Every 64 bytes are the image of exactly one identifier. |
| `SarFormat.FileRoundTrip` | src/wpl/wpl.h:139-147 | Reading the 96 bytes of an entry gives back the entry: id, kind, version, compressedSize, fullSize, location in that order. |
| `SarFormat.FileBytesRoundTrip` | src/wpl/wpl.h:139-147 | Every 96 bytes are the image of exactly one entry. |
| `SarFormat.HeaderRoundTrip` | src/wpl/wpl.h:149-160 | Reading the 128 header bytes gives back every header field, in declaration order. |
| `SarFormat.FileHashBytes` | src/wpl/wpl.h:139-141 | An entry's hash is its first 8 bytes, so a search can read it in place. |
| `SarFormat.TableRoundTrip` | src/wpl/wplArchive.c:32 | `files[k]` read from the table at byte 96k is the k-th entry written. |
| `SarReader.Load` | src/wpl/wplArchive.c:5-22 | The view is the caller's buffer itself, with the description at offset 128 and the table at `fileTableLocation`. A wrong-magic message appears exactly when the magic differs from 0x77536172. A wrong-version message appears exactly when the version exceeds 101. |
| `SarReader.LoadIgnoresChecks` | src/wpl/wplArchive.c:11-21 | Buffers that differ only in magic and version load to views with the same table, description and count. The checks never change the view. |
| `SarReader.HashesAt` | src/wpl/wplArchive.c:32 | The k-th probed hash is the hash of record k, read from the 8 bytes at `files + 96k`. |
| `SarReader.ReadHash` | src/wpl/wplArchive.c:32 | Reading `files[k].id.hash` gives the k-th entry of the table's hash column. |
| `SarReader.ReadFileCount` | src/wpl/wplArchive.c:29 | `header->fileCount` is the length of the hash column the search runs over. |
| `SarReader.GetFileIndexByHash` | src/wpl/wplArchive.c:26-43 | The result is exactly the binary-search index `IndexOf` over the table's hash column, so it is -1 or an index whose hash is the key. On an ascending table it is -1 exactly when no entry has the key, including a zero count. |
| `SarReader.ProbeOnce` | src/wpl/wplArchive.c:31-39 | One probe reads the middle hash. It returns that index exactly when the window's search would, and otherwise narrows the window to one with the same search result. |
| `SarReader.ProbeTable` | src/wpl/wplArchive.c:29-42 | The min/max loop returns `IndexOf` of the hash column: while it runs, the search over the window [min, max] has the same result as the search over the whole table. |
| `SarReader.GetFile` | src/wpl/wplArchive.c:45-51 | The result is NULL exactly when the hash equals 2^64-1 (the hash compared with -1), never on account of a missing entry. |
| `SarReader.GetFileHit` | src/wpl/wplArchive.c:45-51 | On an ascending table, a name whose hash is stored yields the record of an entry with that hash. |
| `SarReader.GetFileMiss` | src/wpl/wplArchive.c:49-50 | A name whose hash is not stored yields the record one entry before the table (`files - 1`), not NULL. |
| `SarReader.RecordFor` | src/wpl/wplArchive.c:56 | A record is read only when `GetFile` returned a record lying inside the buffer. |
| `SarReader.PayloadData` | src/wpl/wplArchive.c:57-65 | The payload is read exactly when `base + location + compressedSize` stays within the buffer. |
| `SarReader.FileDataOf` | src/wpl/wplArchive.c:53-67 | On success the output has `fullSize + 8` bytes (in u64). Nothing is stored when `sizeOut` is NULL. Otherwise `fullSize` is stored as an `isize`, whatever the decompressor wrote, so a size of 2^63 or more reads back negative. |
| `Bytes.AsIsize` | src/wpl/wplArchive.c:63-65 | Storing a u64 through an `isize*` keeps values below 2^63 and turns larger ones into the negative number 2^64 less. |
| `SarReader.GetFileData` | src/wpl/wplArchive.c:53-67 | The method decompresses `compressedSize` bytes at `base + location` into a zeroed `fullSize + 8` buffer. It stores `fullSize` as an `isize` only through a non-NULL `sizeOut`. A record or payload that would lie outside the buffer is reported as a fault. |
| `SarReader.Decompress` | src/wpl/wplArchive.c:58-62 | The output buffer holds what the decompressor wrote, cut to the buffer size, followed by the zeroes of the fresh allocation. |
| `Codec.FillBuffer` | src/wpl/wplArchive.c:58-62 | Byte i of the output is the i-th decompressed byte when there is one, and 0 otherwise. |
| `KeyedSearch.Search` | src/wpl/wplArchive.c:30-40 | One run of the min/max loop returns -1 or an index inside the window whose key matches, on any table. |
| `KeyedSearch.IndexOf` | src/sartool/sar.c:102-119 | The search over a whole table returns -1 or an index whose key matches. An empty table gives -1 because `max` starts at -1. |
| `KeyedSearch.SearchComplete` | src/wpl/wplArchive.c:30-40 | On an ascending table, the search never misses a key that lies in the window. |
| `KeyedSearch.IndexOfCorrect` | src/wpl/wplArchive.c:26-43 | On an ascending table the search returns -1 exactly when the key is absent, and otherwise an index holding the key. |
| `KeyedSearch.IndexOfUnique` | src/wpl/wplArchive.c:26-43 | When exactly one entry carries the key, the search returns that entry. |
| `KeyedSearch.KeyAbove` | src/wpl/wplArchive.c:35-36 | A probe below the key drops the lower half and keeps the key in the window. |
| `KeyedSearch.KeyBelow` | src/wpl/wplArchive.c:37-38 | A probe above the key drops the upper half and keeps the key in the window. |
| `KeyedSort.SortByKey` | src/sartool/sar.c:238-251 | The array becomes the insertion sort of its first `count` elements. The rest is untouched, and a non-positive count changes nothing. |
| `KeyedSort.InsertAt` | src/sartool/sar.c:241-249 | One outer iteration inserts `a[i]` into the prefix `a[..i]` and leaves everything after `i` in place. |
| `KeyedSort.ShiftUp` | src/sartool/sar.c:244-247 | The inner loop shifts up exactly the trailing elements whose key is strictly greater than the held element's, and stops at the insertion point. |
| `KeyedSort.InsertShape` | src/sartool/sar.c:244-248 | The element lands after the last element whose key is not greater than its own, and every element it passes has a strictly greater key. |
| `KeyedSort.InsertSorted` | src/sartool/sar.c:244-248 | Inserting into an ascending prefix keeps it ascending. |
| `KeyedSort.InsertPermutes` | src/sartool/sar.c:243-248 | Insertion adds the held element and loses or duplicates none. |
| `KeyedSort.InsertStable` | src/sartool/sar.c:244 | Because the comparison is strict `>`, the inserted element stays after every earlier element with the same key. |
| `KeyedSort.InsertionSortSorted` | src/sartool/sar.c:238-251 | The sort leaves the elements ascending by key. |
| `KeyedSort.InsertionSortPermutes` | src/sartool/sar.c:238-251 | The sort output is a permutation (same multiset) of its input. |
| `KeyedSort.InsertionSortStable` | src/sartool/sar.c:242-244 | For every key, the elements carrying it keep their relative order. |
| `KeyedSort.WithKeyOne` | src/sartool/sar.c:238-251 | A key that selects exactly one element is carried by exactly one index. |
| `SarBuilder.SortFiles` | src/sartool/sar.c:238-251 | `wSarSortFiles` sorts the first `count` entries by hash and leaves the rest alone. |
| `SarBuilder.CreatedConsistent` | src/sartool/sar.c:173-176 | With no existing archive, the builder has a zeroed header, count 0, and empty table and data. Either way both counts match the table and every payload lies in the data arena. |
| `SarBuilder.ImportCopies` | src/sartool/sar.c:178-201 | On import the header is the existing one with magic and version re-stamped, and both counts are the existing count. Entry k is existing entry k with its payload copied and its location rewritten to point at the copy. The description area is zeroed, not copied. |
| `SarBuilder.RebasedAt` | src/sartool/sar.c:194-198 | The imported entry k differs from the original only in `location`, and at its new location the data arena holds exactly the bytes the archive held at the old one. |
| `SarBuilder.ImportFiles` | src/sartool/sar.c:188-199 | The import loop appends each entry's compressed bytes in table order and rewrites each location to their offset from the arena start. |
| `SarBuilder.StoredName` | src/sartool/sar.c:218-219 | The stored name is the first min(strlen(name), 55) bytes of the name. |
| `SarBuilder.NameFieldHash` | src/sartool/sar.c:219-220 | The 55-byte name field, read up to its terminator, is the stored (possibly truncated) name, and the rest of the field is zero. |
| `SarBuilder.MakeEntry` | src/sartool/sar.c:217-234 | The new entry holds the stored name, the hash of the name field, the input size as fullSize, and compressed size and location only on compression success. |
| `SarBuilder.AddFileCounts` | src/sartool/sar.c:215-216 | `wSarAddFile` raises both the builder's count and the header's count by exactly one. It appends one entry and keeps the earlier table and data. |
| `SarBuilder.AddFileEntry` | src/sartool/sar.c:218-234 | The new entry's hash is the hash of the truncated name, and fullSize is the input size. On success the compressed bytes are appended and the entry points at them. On failure nothing is appended and size and location are zero. |
| `SarBuilder.AddFileKeeps` | src/sartool/sar.c:213-236 | Every earlier entry and its payload bytes are unchanged by a later add. |
| `SarBuilder.AddFileConsistent` | src/sartool/sar.c:213-236 | Adding a file keeps both counts equal to the table length and every payload inside the data arena. |
| `SarBuilder.Relocate` | src/sartool/sar.c:280-283 | Every entry keeps all fields but `location`, which is moved by the given offset in u64 arithmetic. |
| `SarBuilder.RelocateTable` | src/sartool/sar.c:280-283 | The relocation loop adds the data offset to every `location` of the table copy. |
| `SarBuilder.SortedCopy` | src/sartool/sar.c:268 | The staged table after the in-place sort is the insertion sort by hash of the staged table. |
| `SarBuilder.RelocatedCopy` | src/sartool/sar.c:270-283 | The table copied to the final arena and relocated is the sorted table with every location moved by the data offset. |
| `SarBuilder.Image` | src/sartool/sar.c:285-286 | The returned size is the number of bytes from the header to the end of the copied data. |
| `SarBuilder.FinalTableSorted` | src/sartool/sar.c:268 | The finalized table is ascending by hash. It is a permutation of the staged entries in which equal hashes keep their staging order. |
| `SarBuilder.FinalizeHeader` | src/sartool/sar.c:274-290 | The image starts with the staged header, with `fileTableLocation` set to the table offset and magic/version stamped. `archiveSize`, `fileCount` and `descriptionLength` are left as staged. |
| `SarBuilder.FinalizeLayout` | src/sartool/sar.c:270-278 | The image is laid out as header, earlier arena contents, then the sorted table at `fileTableLocation`, followed by the whole data blob. |
| `SarBuilder.FinalizeRelocation` | src/sartool/sar.c:276-283 | Every written location equals the data offset plus the staging offset. The bytes at `header + location` are exactly the payload staged for that entry. |
| `SarBuilder.FinalizedConsistent` | src/sartool/sar.c:253-291 | Finalizing keeps the counts and the payload bounds, with the staged table now sorted. |
| `SarBuilder.EditingArchive.Create` | src/sartool/sar.c:163-205 | `wSarCreateEditingArchive` leaves the state described by `ImportCopies` or `CreatedConsistent`, and a consistent builder. |
| `SarBuilder.EditingArchive.AddFile` | src/sartool/sar.c:213-236 | `wSarAddFile` moves the builder to the state described by the add lemmas and keeps it consistent. |
| `SarBuilder.EditingArchive.Finalize` | src/sartool/sar.c:253-291 | `wSarFinalizeArchive` returns the image the finalize lemmas describe and its byte count. The staged table is left sorted and the header re-stamped. |
| `SarRoundTrip.LoadFinalized` | src/wpl/wplArchive.c:5-22 | Loading a finalized image prints nothing. The view reads the finalized header, and its table has one entry per staged file. |
| `SarRoundTrip.ReadBackEntry` | src/sartool/sar.c:270-283 | Entry k read by the reader from the image is entry k of the sorted, relocated table the builder wrote. |
| `SarRoundTrip.ReadBackHashes` | src/sartool/sar.c:268-274 | The reopened hash column is the sorted table's, so it is ascending and the reader's search is complete on it. |
| `SarRoundTrip.BuildShape` | src/sartool/sar.c:213-236 | After adding n files to a fresh builder, it is consistent with n entries, and the data arena is exactly as long as the successful compressions together. |
| `SarRoundTrip.BuildStages` | src/sartool/sar.c:213-236 | Entry i of the builder carries file i's stored-name hash and size and, when file i compressed, its compressed bytes. |
| `SarRoundTrip.SortedPosition` | src/sartool/sar.c:238-251 | With distinct name hashes, each file's entry lands at exactly one sorted position that no other entry's hash shares. |
| `SarRoundTrip.FoundAt` | src/wpl/wplArchive.c:26-43 | The reader's search for a stored name's hash returns the sorted position of that file's entry. |
| `SarRoundTrip.RecordFound` | src/wpl/wplArchive.c:45-51 | The record the reader picks for a stored name is that file's relocated entry. |
| `SarRoundTrip.ReadsBack` | src/wpl/wplArchive.c:53-67 | With an inverse codec, reading a stored name returns the file's bytes followed by the 8 bytes of slack. Through a non-NULL `sizeOut` it reports the file's length as an `isize`, which is the true length below 2^63 bytes (`Reported`). |
| `SarRoundTrip.ArchiveRoundTrip` | src/sartool/sar.c:253-291 | Build from files with short, distinct-hash names, finalize, load and read by name: each file that compressed comes back bit-identical, followed by 8 zero bytes. Through a non-NULL `sizeOut` its length is reported as an `isize`, which is exact below 2^63 bytes. |
| `Atlas.SegmentSort` | not_yet_used/wbTexture.c:25-38 | `segmentSort` sorts the first `count` segments by hash and leaves the rest alone. |
| `Atlas.SortedSegments` | not_yet_used/wbTexture.c:25-38 | The sorted segments are ascending by hash, a permutation of the input, and stable for equal hashes. |
| `Atlas.HashName` | not_yet_used/wbTexture.c:15-23 | `hashString` is the same FNV-1 hash of the bytes before the NUL as `wHashString`. |
| `Atlas.FoundIfSorted` | not_yet_used/wbTexture.c:176-193 | On an ascending hash column the search misses exactly the absent keys. |
| `Atlas.TextureAtlas.Find` | not_yet_used/wbTexture.c:179-192 | The min/max loop returns exactly the binary-search result over the hash column of the segments in use. |
| `Atlas.TextureAtlas.GetIndex` | not_yet_used/wbTexture.c:176-193 | The result is -1 or the index of a segment whose hash is the name's. On sorted segments it is -1 exactly when no segment carries that hash. |
| `Atlas.TextureAtlas.GetSegment` | not_yet_used/wbTexture.c:195-203 | The result is NULL on a miss, or a segment in use with the name's hash. On sorted segments a present hash is always found. |
| `Atlas.TextureAtlas.GetSize` | not_yet_used/wbTexture.c:205-214 | The result is (-1,-1) on a miss, and otherwise the width and height of a segment carrying the name's hash. |
| `Atlas.TextureAtlas.GetXY` | not_yet_used/wbTexture.c:216-225 | The result is (-1,-1) on a miss, and otherwise the position of a segment carrying the name's hash. |
| `Atlas.TextureAtlas.Get` | not_yet_used/wbTexture.c:227-235 | The result is `r2i(-1,-1,0,0)` on a miss, and otherwise the region of a segment carrying the name's hash. |
| `Atlas.LookupStoredName` | not_yet_used/wbTexture.c:176-193 | On sorted segments, a segment whose hash is its name's and is not shared is found under its own name. |
| `Atlas.LookupParsedName` | not_yet_used/wbTexture.c:319-324 | On sorted segments, a parsed segment whose hash is not shared is found under the first 15 bytes of its name. |
| `Atlas.SortedTableFindsNames` | not_yet_used/wbTexture.c:169-172 | After hashing and sorting, each segment with an unshared hash is found by its name at its new place. |
| `SpriteSheet.IsWhitespace` | not_yet_used/wbTexture.c:237-240 | Accepts exactly the characters of " \t\r": blank, tab and carriage return. |
| `SpriteSheet.IsNumber` | not_yet_used/wbTexture.c:242-245 | Accepts exactly the characters '0' to '9'. |
| `SpriteSheet.CharacterClasses` | not_yet_used/wbTexture.c:237-245 | Whitespace is blank, tab or CR, never a newline, NUL or digit. A digit is never a newline, NUL or '#'. |
| `SpriteSheet.CharValue` | not_yet_used/wbTexture.c:252 | A byte read as a signed `char` lies in -128..127 and equals the byte below 0x80. |
| `SpriteSheet.StringToDecimal` | not_yet_used/wbTexture.c:247-255 | The result is 0 for an empty run, and otherwise the decimal value accumulated over the first `len` characters. |
| `SpriteSheet.DecimalRange` | not_yet_used/wbTexture.c:247-255 | A run of k digits has a value in [0, 10^k). |
| `SpriteSheet.DecimalOfDigits` | not_yet_used/wbTexture.c:247-255 | Reading back the decimal digits of n gives n. |
| `SpriteSheet.MatchString` | not_yet_used/wbTexture.c:257-266 | The result is 1 exactly when the first `len` characters agree and neither string ends within them. |
| `SpriteSheet.SkipWhile` | not_yet_used/wbTexture.c:295 | A scan stops at the terminator or at the first character outside its class. |
| `SpriteSheet.SkipWhileSkipsMembers` | not_yet_used/wbTexture.c:306 | Every character a scan passes over belongs to its class. |
| `SpriteSheet.Skip` | not_yet_used/wbTexture.c:320 | The scan loop over the text stops where the scan function does. |
| `SpriteSheet.SkipComments` | not_yet_used/wbTexture.c:313-316 | When the comment loop does not step past the terminator, it never lengthens the text and stops at a character that starts no comment. |
| `SpriteSheet.OverrunNeedsOpenLine` | not_yet_used/wbTexture.c:313-316 | The cursor can leave the string only when the text does not end in a newline. |
| `SpriteSheet.SkipCommentLines` | not_yet_used/wbTexture.c:313-316 | The comment loop over the text overruns exactly when the comment function does, and otherwise stops at the same place. |
| `SpriteSheet.Number` | not_yet_used/wbTexture.c:326-331 | `extractNumber` consumes at most what remains. |
| `SpriteSheet.ReadNumber` | not_yet_used/wbTexture.c:326-331 | The `extractNumber` expansion yields the value and the cursor that `Number` describes. |
| `SpriteSheet.ReadEntry` | not_yet_used/wbTexture.c:319-337 | An entry line starting with a non-blank consumes at least one character. |
| `SpriteSheet.ReadEntryAt` | not_yet_used/wbTexture.c:319-341 | The name scan and four number extractions yield the entry and cursor that `ReadEntry` describes. |
| `SpriteSheet.SkipEntry` | not_yet_used/wbTexture.c:375-390 | The count loop's scans stop where the parse loop's do. |
| `SpriteSheet.AfterHeader` | not_yet_used/wbTexture.c:295-302 | The header skip never lengthens the text. |
| `SpriteSheet.SkipHeader` | not_yet_used/wbTexture.c:293-302 | The cursor ends after leading blanks and after "@ssv1" when it is present. A missing version line changes only an unused flag. |
| `SpriteSheet.ParseFrom` | not_yet_used/wbTexture.c:304-345 | From `count` used slots, the reported count stays within [count, capacity] and the filled entries never exceed the slots taken. |
| `SpriteSheet.Parse` | not_yet_used/wbTexture.c:274-346 | The exact text "a" reports 1 and fills at most one slot. With a non-negative capacity, any other text reports at most `capacity` and fills at most the slots it reports. |
| `SpriteSheet.CountFrom` | not_yet_used/wbTexture.c:363-393 | The count loop only counts upwards. |
| `SpriteSheet.NameField` | not_yet_used/wbTexture.c:322-324 | The 16-byte name field always ends in NUL at index 15. |
| `SpriteSheet.Store` | not_yet_used/wbTexture.c:310-341 | Slots 0..n-1 get the parsed names and regions in order. The hash and every later slot are untouched. |
| `SpriteSheet.LocalNameOf` | not_yet_used/wbTexture.c:279-286 | The `localName` loop advances by i+1 at every '/' cumulatively, and reports an overrun when it leaves the name. |
| `SpriteSheet.ParseSpriteSheet` | not_yet_used/wbTexture.c:274-346 | The count, the overrun and the written slots are those of `Parse`. |
| `SpriteSheet.ParseEntries` | not_yet_used/wbTexture.c:304-345 | The entry loop's count, its overrun and the slots it writes, in order, are those that `ParseFrom` describes from count 0. |
| `SpriteSheet.CountSpriteSheet` | not_yet_used/wbTexture.c:348-394 | The count and the overrun are those of `Count`. |
| `SpriteSheetLaws.ReadRendered` | not_yet_used/wbTexture.c:293-345 | A written sheet followed by more text makes both parsers read every line and then continue with the rest. |
| `SpriteSheetLaws.RenderRoundTrip` | not_yet_used/wbTexture.c:319-341 | A sheet of `name x y w h` lines parses back to exactly its entries, and both parsers report their number. |
| `SpriteSheetLaws.TrailingComment` | not_yet_used/wbTexture.c:305-317 | A sheet ending in a comment line makes parse report one slot more than it filled and than count counts. |
| `SpriteSheetLaws.HeaderOnly` | not_yet_used/wbTexture.c:304-317 | The version line alone takes one slot in parse, fills none, and counts 0. |
| `SpriteSheetLaws.ParseAgainstCount` | not_yet_used/wbTexture.c:364-374 | Wherever the count loop finishes with m entries and slots suffice, the parse loop fills m slots and reports m or m+1. |
| `SpriteSheetLaws.OverrunAgainstCount` | not_yet_used/wbTexture.c:313-316 | With enough slots, the parse loop leaves the string exactly when the count loop does. |
| `SpriteSheetLaws.AtlasAddSlots` | not_yet_used/wbTexture.c:80-82 | With `count + 2` as capacity, parse reports at most the `count + 1` slots `atlasAdd` reserved and fills at most the counted ones. |
| `SpriteSheetLaws.LocalNameNoSlash` | not_yet_used/wbTexture.c:279-286 | A texture name without '/' is used whole. |
| `SpriteSheetLaws.LocalNameOneSlash` | not_yet_used/wbTexture.c:279-286 | With one '/', the name after it is used. |
| `SpriteSheetLaws.LocalNameTwoSlashes` | not_yet_used/wbTexture.c:281-285 | With two '/', the cumulative advance skips |a|+1 bytes past the last '/', or leaves the string. |
| `SpriteSheetLaws.WholeTexture` | not_yet_used/wbTexture.c:276-291 | The text "a" gives one segment covering (0,0,size.x,size.y), named after the part after the texture name's single '/'. |
| `SpriteSheetLaws.NameFieldString` | not_yet_used/wbTexture.c:322-324 | The name field holds, as a C string, exactly the first 15 bytes of the name. |
| `Mixer.Clamp` | src/wpl/wplMixer.c:22-28 | The result is the value when it lies in [min, max], and otherwise the bound it lies beyond. |
| `Mixer.SampleVoice` | src/wpl/wplMixer.c:102-109 | A played voice is Playing, with the sample set, a null stream and position 0. Its pitch is clamped into [0.1, 10] and its pan, halved, into [-0.5, 0.5]. |
| `Mixer.StreamVoice` | src/wpl/wplMixer.c:119-124 | A streamed voice is Streaming, with the stream set, a null sample, position 0 and the gain. Pitch and pan are not written. |
| `Mixer.FirstFree` | src/wpl/thirdparty/sts_mixer.h:140-148 | The result is the lowest Stopped index, or -1 exactly when no voice is Stopped. |
| `Mixer.ActiveCount` | src/wpl/thirdparty/sts_mixer.h:163-172 | The active count never exceeds the number of voices. |
| `Mixer.ActiveCountIsSize` | src/wpl/thirdparty/sts_mixer.h:74-75 | The active count is the number of voices whose state is not Stopped. |
| `Mixer.ActiveCountUpdate` | src/wpl/thirdparty/sts_mixer.h:163-172 | Replacing one voice changes the count by exactly that voice's contribution. |
| `Mixer.PlayRaisesActive` | src/wpl/thirdparty/sts_mixer.h:175-209 | A successful play raises the active count by exactly 1. |
| `Mixer.StopLowersActive` | src/wpl/thirdparty/sts_mixer.h:212-217 | Stopping a voice lowers the count by 1 if it was active and leaves it otherwise. |
| `Mixer.StopMatching` | src/wpl/thirdparty/sts_mixer.h:220-237 | A stop by pointer keeps the number of voices. |
| `Mixer.StopMatchingEffect` | src/wpl/thirdparty/sts_mixer.h:90-94 | Exactly the voices whose pointer equals the argument are reset. All others are unchanged, including with a null argument. |
| `Mixer.StopMatchingIdempotent` | src/wpl/wplMixer.c:138-155 | Stopping by the same pointer twice changes nothing more. |
| `Mixer.WrittenVoicesCoherent` | src/wpl/wplMixer.c:93-127 | Reset, played and streamed voices are coherent: stopped means fully reset, and playing means no stream with pitch and pan within bounds. |
| `Mixer.StopMatchingCoherent` | src/wpl/wplMixer.c:138-155 | The stop loops keep a coherent table coherent. |
| `Mixer.StopNullStopsOtherKind` | src/wpl/wplMixer.c:141 | `wMixerStopSample(NULL)` also stops every stream (and vice versa): afterwards only voices holding a non-null pointer of the given kind play. |
| `Mixer.NoneActive` | src/wpl/wplMixer.c:76-78 | A table of reset voices is coherent and has no active voice. |
| `Mixer.Mixer.Init` | src/wpl/wplMixer.c:69-79 | `wMixerInit` sets 44100 Hz and gain 1, resets every voice below `voiceCount` to Stopped with null pointers and zero fields, and leaves none active. |
| `Mixer.Mixer.ResetVoice` | src/wpl/wplMixer.c:46-54 | `stmResetVoice` replaces voice i by the reset voice and changes nothing else. |
| `Mixer.Mixer.FindFreeVoice` | src/wpl/wplMixer.c:57-66 | The result is the lowest index below `voiceCount` whose state is Stopped, or -1 when there is none. |
| `Mixer.Mixer.GetActiveVoices` | src/wpl/wplMixer.c:81-90 | The result is the number of voices whose state is not Stopped. |
| `Mixer.Mixer.PlaySample` | src/wpl/wplMixer.c:93-112 | The first free voice becomes the played sample voice and its index is returned, with the active count up by 1. With no free voice the result is -1 and nothing changes. |
| `Mixer.Mixer.PlayStream` | src/wpl/wplMixer.c:115-127 | The first free voice becomes the streamed voice and its index is returned, with the count up by 1. Otherwise the result is -1 and nothing changes. |
| `Mixer.Mixer.StopVoice` | src/wpl/wplMixer.c:130-135 | An index in [0, voiceCount) is reset and the count drops by its contribution. Any other index is a no-op. |
| `Mixer.Mixer.StopSample` | src/wpl/wplMixer.c:138-145 | Exactly the voices below `voiceCount` whose sample pointer equals the argument are reset. The rest of the array is untouched. |
| `Mixer.Mixer.StopStream` | src/wpl/wplMixer.c:148-155 | Exactly the voices below `voiceCount` whose stream pointer equals the argument are reset. The rest of the array is untouched. |
| `Mixer.Mixer.StopWhere` | src/wpl/thirdparty/sts_mixer.h:220-237 | The shared stop loop resets the matching voices below `voiceCount` and leaves the rest of the array alone. |

## Left out

- The DEFLATE codec (`tdefl_compress_mem_to_heap`, `tinfl_decompress_mem_to_mem`, `wDecompressMemToMem`) is foreign code. It is a pair of function parameters. Its round trip is the precondition `Codec.RoundTrips`, never proved.
- The arena allocators (`wArenaPush`, `wArenaBootstrap`, `wGetMemoryInfo`) are not part of this model. Each arena is a sequence whose length is its head. A push appends with no alignment padding, and fresh memory reads as zero. The `EditingArchive` struct pushed before the header on the final arena is not part of the image and is left out.
- Pointers are modelled as byte offsets into the image. The reader's view drops its `header` pointer because it always equals `base`.
- The command-line tool of src/sartool/sar.c (`main`, `loadFile`, `recursivelyAddToArchive`) is left out: it is filesystem traversal, file I/O and printing. So are all `printf` and `wLogError` diagnostics. `wSarLoad`'s two messages are returned as values beside the view, to show that they do not alter it.
- The Builder's "spent after finalize" state is not tracked. `SarBuilder.EditingArchive.Finalize` may be called again on the model. The source leaves a second finalize undefined, so the model does not describe its outcome.
- `SarBuilder.EditingArchive.AddFile`: requires the count to stay below 2^64 - 1 and the data arena below 2^64 bytes. The C code's `u64`/`usize` fields would wrap beyond that, which no real address space reaches.
- `SarReader.FileDataOf`: the output buffer size `fullSize + 8` is computed in u64 and is passed to `wArenaPush` as an `isize`. A size of 2^63 or more would be a negative push, and the arena is not part of this model. The model allocates `Wrap64(fullSize + 8)` bytes.
- `SarReader.GetFileData`: where the C code reads a record or payload outside the buffer (a lookup miss, or a corrupt location), the model returns a fault value instead of reading unowned memory.
- `SarReader.GetFileIndexByHash`, `SarReader.ReadHash`, `SarReader.GetFile`, `SarReader.RecordFor`, `SarReader.FileDataOf` and `SarReader.GetFileData` require `TableInBuffer`: the header's `fileTableLocation` and `fileCount` must place the whole table inside the buffer. `wSarLoad` does not check this, and the C code reads outside the buffer for such a header. The model does not describe those reads.
- `SarBuilder.EditingArchive.Create` requires `Importable` for an existing archive: its table and every payload it copies must lie in the buffer, and the copied payloads must fit in 2^64 bytes. The C code does not check this either.
- `SarRoundTrip.ArchiveRoundTrip`: covers names of at most 55 bytes whose hashes are distinct and differ from 2^64-1. Longer names are looked up under their truncated form (`AddFileEntry`), and colliding hashes are an acknowledged limitation of the format.
- `SpriteSheet.StringToDecimal`: keeps the exact value, because the model does not reproduce the C `i32` accumulator's wrap-around on runs longer than nine digits.
- `MemBlock.CopyMemoryBlock`: the `i32` offset arithmetic is unbounded in the model (no overflow). The source and destination must be distinct buffers, and every `memcpy` must stay inside its buffer (the requires `RowsFit`/`BorderFits`), which C leaves undefined otherwise.
- The sprite-sheet parsers step past the terminating NUL after a last comment line with no newline. The model stops there and reports `overrun` rather than reading past the string.
- In the `"a"` form of `parseSpriteSheet`, the cumulative `/` advance of `localName` can pass the end of the texture name (`LocalNameTwoSlashes`). The C code then copies a name from past the string, still writes the whole-texture region and returns 1. The model reports `overrun` with count 1 and writes no slot.
- `atlasInit`, `atlasAdd` (beyond its slot arithmetic), `atlasAddFile`, `atlasFinalize` and `atlasWriteSegment` are left out: they cover rectangle packing, texture loading and pixel blits. The segment's `data` pointer and float `size` are not modelled.
- `wMixerMixAudio` / `wplMixerMixAudio` are left out: they are the floating-point mixing loop with a stream callback. Gain, pitch and pan are `real`, so `f32` rounding is not modelled. Sample and stream pointers are optional identities, with None as NULL.
- The mismatched `wplMixerInit` declaration at src/wpl/thirdparty/sts_mixer.h:69 is not modelled; the definition at line 151 is.
