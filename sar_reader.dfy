/** The zero-copy archive reader of src/wpl/wplArchive.c (repeated in
    src/sartool/sar.c:81-143, which differs only in calling `wSarHashString` and
    `tinfl_decompress_mem_to_mem` directly). The archive is the byte image the
    caller loaded; the view holds positions inside it and copies nothing. */
module SarReader {
  import opened Bytes
  import opened Wrappers
  import opened Fnv
  import opened KeyedSearch
  import opened SarFormat
  import opened Codec

  /** wSarArchive: the caller's buffer (`base`) and, as byte offsets from it, where
      the description and the file table start. Its `header` pointer is always `base`
      itself, so the header is the buffer's first 128 bytes. */
  datatype Archive = Archive(base: seq<u8>, description: int, files: int)

  /** The two messages `wSarLoad` prints; they are reported beside the view. */
  datatype Diagnostic = WrongMagic(got: u32) | WrongVersion(got: u32)

  datatype Loaded = Loaded(archive: Archive, messages: seq<Diagnostic>)

  function HeaderOf(a: Archive): SarHeader
    requires |a.base| >= HEADER_SIZE
  {
    DecodeHeader(a.base[..HEADER_SIZE])
  }

  /** wSarLoad (src/wpl/wplArchive.c:5-22). The header is read where it lies; the
      checks on magic and version only add messages. */
  function Load(file: seq<u8>): (r: Loaded)
    requires |file| >= HEADER_SIZE
    ensures r.archive.base == file
    ensures r.archive.description == HEADER_SIZE
    ensures r.archive.files == HeaderOf(r.archive).fileTableLocation
    ensures (WrongMagic(HeaderOf(r.archive).magic) in r.messages)
              == (HeaderOf(r.archive).magic != MAGIC)
    ensures (WrongVersion(HeaderOf(r.archive).version) in r.messages)
              == (HeaderOf(r.archive).version > VERSION)
    ensures |r.messages| <= 2
  {
    var h := DecodeHeader(file[..HEADER_SIZE]);
    var m1 := if h.magic != MAGIC then [WrongMagic(h.magic)] else [];
    var m2 := if h.version > VERSION then [WrongVersion(h.version)] else [];
    Loaded(Archive(file, HEADER_SIZE, h.fileTableLocation), m1 + m2)
  }

  /** The messages do not change the view: two buffers that differ only in the
      magic and version fields load to views at the same positions. */
  lemma LoadIgnoresChecks(f: seq<u8>, g: seq<u8>)
    requires |f| == |g| >= HEADER_SIZE
    requires f[8..] == g[8..]
    ensures Load(f).archive.files == Load(g).archive.files
    ensures Load(f).archive.description == Load(g).archive.description
    ensures HeaderOf(Load(f).archive).fileCount == HeaderOf(Load(g).archive).fileCount
  {
    assert f[112..120] == f[8..][104..112];
    assert g[112..120] == g[8..][104..112];
    assert f[104..112] == f[8..][96..104];
    assert g[104..112] == g[8..][96..104];
    assert f[..HEADER_SIZE][112..120] == f[112..120];
    assert g[..HEADER_SIZE][112..120] == g[112..120];
    assert f[..HEADER_SIZE][104..112] == f[104..112];
    assert g[..HEADER_SIZE][104..112] == g[104..112];
  }

  /** `header->fileCount`, read from its 8 bytes at offset 104. */
  function FileCount(a: Archive): u64
    requires |a.base| >= HEADER_SIZE
  {
    DecodeU64(a.base[104..112])
  }

  lemma FileCountField(a: Archive)
    requires |a.base| >= HEADER_SIZE
    ensures FileCount(a) == HeaderOf(a).fileCount
  {
    assert a.base[..HEADER_SIZE][104..112] == a.base[104..112];
  }

  /** The whole table the header announces lies inside the buffer. */
  predicate TableInBuffer(a: Archive)
    requires |a.base| >= HEADER_SIZE
  {
    0 <= a.files && a.files + FILE_SIZE * FileCount(a) <= |a.base|
  }

  /** Entry `k` of the table, read in place. */
  function FileAt(a: Archive, k: int): SarFile
    requires |a.base| >= HEADER_SIZE && TableInBuffer(a)
    requires 0 <= k < FileCount(a)
  {
    DecodeFile(a.base[a.files + FILE_SIZE * k..a.files + FILE_SIZE * k + FILE_SIZE])
  }

  /** The hash column of the table. */
  function Hashes(a: Archive): (r: seq<int>)
    requires |a.base| >= HEADER_SIZE && TableInBuffer(a)
    ensures |r| == FileCount(a)
  {
    HashesUpTo(a, FileCount(a))
  }

  /** The hashes of the first `n` records. */
  function HashesUpTo(a: Archive, n: nat): (r: seq<int>)
    requires |a.base| >= HEADER_SIZE && TableInBuffer(a)
    requires n <= FileCount(a)
    ensures |r| == n
  {
    if n == 0 then [] else HashesUpTo(a, n - 1) + [FileAt(a, n - 1).id.hash]
  }

  lemma {:induction false} HashesUpToAt(a: Archive, n: nat, k: int)
    requires |a.base| >= HEADER_SIZE && TableInBuffer(a)
    requires 0 <= k < n <= FileCount(a)
    ensures HashesUpTo(a, n)[k] == FileAt(a, k).id.hash
  {
    if k < n - 1 {
      HashesUpToAt(a, n - 1, k);
    }
  }

  /** The whole file table, read in place. */
  function Files(a: Archive): (r: seq<SarFile>)
    requires |a.base| >= HEADER_SIZE && TableInBuffer(a)
    ensures |r| == FileCount(a)
  {
    FilesUpTo(a, FileCount(a))
  }

  function FilesUpTo(a: Archive, n: nat): (r: seq<SarFile>)
    requires |a.base| >= HEADER_SIZE && TableInBuffer(a)
    requires n <= FileCount(a)
    ensures |r| == n
  {
    if n == 0 then [] else FilesUpTo(a, n - 1) + [FileAt(a, n - 1)]
  }

  lemma {:induction false} FilesUpToAt(a: Archive, n: nat, k: int)
    requires |a.base| >= HEADER_SIZE && TableInBuffer(a)
    requires 0 <= k < n <= FileCount(a)
    ensures FilesUpTo(a, n)[k] == FileAt(a, k)
  {
    if k < n - 1 {
      FilesUpToAt(a, n - 1, k);
    }
  }

  /** The hash column is the hash field of the table's entries. */
  lemma FilesAt(a: Archive, k: int)
    requires |a.base| >= HEADER_SIZE && TableInBuffer(a)
    requires 0 <= k < FileCount(a)
    ensures Files(a)[k] == FileAt(a, k)
    ensures Hashes(a)[k] == Files(a)[k].id.hash
  {
    FilesUpToAt(a, FileCount(a), k);
    HashesAt(a, k);
  }

  /** Entry `k` of the hash column is the hash field of record `k`, which is the
      record's first 8 bytes. */
  lemma HashesAt(a: Archive, k: int)
    requires |a.base| >= HEADER_SIZE && TableInBuffer(a)
    requires 0 <= k < FileCount(a)
    ensures Hashes(a)[k] == FileAt(a, k).id.hash
    ensures Hashes(a)[k] == DecodeU64(a.base[a.files + FILE_SIZE * k..a.files + FILE_SIZE * k + 8])
  {
    HashesUpToAt(a, FileCount(a), k);
    var off := a.files + FILE_SIZE * k;
    FileHashBytes(a.base[off..off + FILE_SIZE]);
    assert a.base[off..off + FILE_SIZE][..8] == a.base[off..off + 8];
  }

  /** wSarGetFileIndexByHash (src/wpl/wplArchive.c:26-43): the binary search over
      the table, reading each probed hash from the buffer. It returns -1 or an index
      whose hash is the key; on an ascending table -1 means the key is absent. While
      the loop runs, the search over the window [min, max] has the same result as the
      search over the whole table, so the loop returns exactly `IndexOf`. */
  method GetFileIndexByHash(a: Archive, key: u64) returns (r: int)
    requires |a.base| >= HEADER_SIZE && TableInBuffer(a)
    ensures r == IndexOf(Hashes(a), key)
    ensures r == -1 || (0 <= r < |Hashes(a)| && Hashes(a)[r] == key)
    ensures Ascending(Hashes(a)) ==> (r == -1 <==> key !in Hashes(a))
  {
    r := ProbeTable(a, key);
    if Ascending(Hashes(a)) {
      IndexOfCorrect(Hashes(a), key);
    }
  }

  /** The min/max loop of `wSarGetFileIndexByHash`. While it runs, the search over
      the window [min, max] has the same result as the search over the table. */
  method ProbeTable(a: Archive, key: u64) returns (r: int)
    requires |a.base| >= HEADER_SIZE && TableInBuffer(a)
    ensures r == IndexOf(Hashes(a), key)
  {
    var count := ReadFileCount(a);
    var min, max := 0, count - 1;
    while min <= max
      invariant 0 <= min <= max + 1 && max < count
      invariant Search(Hashes(a), key, min, max) == IndexOf(Hashes(a), key)
      decreases max - min
    {
      var found: bool;
      found, r, min, max := ProbeOnce(a, key, min, max);
      if found {
        return r;
      }
    }
    return -1;
  }

  /** One pass of the loop body: read the middle hash, and either return its index
      or move one end of the window past it. */
  method ProbeOnce(a: Archive, key: u64, min: int, max: int)
    returns (found: bool, mid: int, min': int, max': int)
    requires |a.base| >= HEADER_SIZE && TableInBuffer(a)
    requires 0 <= min <= max < FileCount(a)
    ensures found ==> mid == Search(Hashes(a), key, min, max)
    ensures !found ==> min <= min' <= max' + 1 && max' <= max && max' - min' < max - min
    ensures !found ==> Search(Hashes(a), key, min', max') == Search(Hashes(a), key, min, max)
  {
    ghost var hashes := Hashes(a);
    mid := (min + max) / 2;
    var localKey := ReadHash(a, mid);
    assert localKey == hashes[mid];
    Probe(hashes, key, min, max);
    found, min', max' := false, min, max;
    if localKey == key {
      found := true;
    } else if localKey < key {
      min' := mid + 1;
    } else {
      max' := mid - 1;
    }
  }

  /** `archive->header->fileCount`. */
  method ReadFileCount(a: Archive) returns (n: int)
    requires |a.base| >= HEADER_SIZE && TableInBuffer(a)
    ensures n == FileCount(a) == |Hashes(a)|
  {
    n := FileCount(a);
  }

  /** `archive->files[k].id.hash`: the 8 bytes at the start of record `k`. */
  method ReadHash(a: Archive, k: int) returns (h: u64)
    requires |a.base| >= HEADER_SIZE && TableInBuffer(a)
    requires 0 <= k < FileCount(a)
    ensures h == Hashes(a)[k]
  {
    var off := a.files + FILE_SIZE * k;
    HashesAt(a, k);
    h := DecodeU64(a.base[off..off + 8]);
  }

  /** What `wSarGetFile` returns: NULL, or the position of a wSarFile record. */
  datatype FileRef = Null | Record(offset: int)

  const U64_MAX: u64 := 0xFFFF_FFFF_FFFF_FFFF

  /** wSarGetFile (src/wpl/wplArchive.c:45-51). The guard compares the hash
      (converted to u64, so against 2^64 - 1) with -1, not the index. */
  function GetFile(a: Archive, name: seq<u8>): (r: FileRef)
    requires |a.base| >= HEADER_SIZE && TableInBuffer(a) && NUL in name
    ensures r.Null? <==> Hash(CString(name)) == U64_MAX
  {
    var hash := Hash(CString(name));
    var index := IndexOf(Hashes(a), hash);
    if hash == U64_MAX then Null else Record(a.files + FILE_SIZE * index)
  }

  /** On a table sorted by hash, a stored name is found at its own entry. */
  lemma GetFileHit(a: Archive, name: seq<u8>)
    requires |a.base| >= HEADER_SIZE && TableInBuffer(a) && NUL in name
    requires Ascending(Hashes(a))
    requires Hash(CString(name)) in Hashes(a) && Hash(CString(name)) != U64_MAX
    ensures GetFile(a, name).Record?
    ensures exists k :: 0 <= k < |Hashes(a)| && GetFile(a, name).offset == a.files + FILE_SIZE * k
                        && FileAt(a, k).id.hash == Hash(CString(name))
  {
    var k := IndexOf(Hashes(a), Hash(CString(name)));
    IndexOfCorrect(Hashes(a), Hash(CString(name)));
    HashesAt(a, k);
  }

  /** A name that is not stored does not give NULL: the result is the record one
      entry before the table, whatever the order of the table. */
  lemma GetFileMiss(a: Archive, name: seq<u8>)
    requires |a.base| >= HEADER_SIZE && TableInBuffer(a) && NUL in name
    requires Hash(CString(name)) !in Hashes(a) && Hash(CString(name)) != U64_MAX
    ensures GetFile(a, name) == Record(a.files - FILE_SIZE)
  {
  }

  /** Why `wSarGetFileData` found nothing to decompress. The C code performs these
      reads without a check, so each is a read of memory the archive does not own. */
  datatype ReadFault = NullRecord | RecordOutsideBuffer | PayloadOutsideBuffer

  /** The decompressed buffer and the value stored through `sizeOut`, None when the
      caller passed a NULL `sizeOut` and nothing was stored. */
  datatype FileData = FileData(output: seq<u8>, sizeOut: Option<int>)

  /** The output buffer size `file->fullSize + 8`, computed in u64. */
  function OutputSize(f: SarFile): u64 {
    Wrap64(f.fullSize + 8)
  }

  /** The record `wSarGetFileData` reads for `name`, if it lies in the buffer. */
  function RecordFor(a: Archive, name: seq<u8>): (r: Result<SarFile, ReadFault>)
    requires |a.base| >= HEADER_SIZE && TableInBuffer(a) && NUL in name
    ensures r.Ok? ==> GetFile(a, name).Record?
                      && 0 <= GetFile(a, name).offset <= |a.base| - FILE_SIZE
  {
    match GetFile(a, name)
    case Null => Err(NullRecord)
    case Record(off) =>
      if 0 <= off && off + FILE_SIZE <= |a.base| then
        Ok(DecodeFile(a.base[off..off + FILE_SIZE]))
      else Err(RecordOutsideBuffer)
  }

  /** The whole of `wSarGetFileData` (src/wpl/wplArchive.c:53-67) as a value: the
      record's compressed bytes at `base + location` go to the decompressor with an
      output buffer of `fullSize + 8` bytes, and `fullSize` is reported whatever the
      decompressor wrote. `wantSize` says whether the caller's `sizeOut` is non-NULL;
      the size is stored through an `isize*`, so a `fullSize` of 2^63 or more is
      reported negative. */
  function FileDataOf(a: Archive, name: seq<u8>, decompress: Decompressor, wantSize: bool)
    : (r: Result<FileData, ReadFault>)
    requires |a.base| >= HEADER_SIZE && TableInBuffer(a) && NUL in name
    ensures r.Ok? ==> RecordFor(a, name).Ok?
                      && |r.value.output| == OutputSize(RecordFor(a, name).value)
                      && r.value.sizeOut
                         == if wantSize then Some(AsIsize(RecordFor(a, name).value.fullSize)) else None
  {
    match RecordFor(a, name)
    case Err(e) => Err(e)
    case Ok(f) => PayloadData(a.base, f, decompress, wantSize)
  }

  /** The second half of `wSarGetFileData`: decompress the payload of record `f`. */
  function PayloadData(base: seq<u8>, f: SarFile, decompress: Decompressor, wantSize: bool)
    : (r: Result<FileData, ReadFault>)
    ensures r.Ok? <==> f.location + f.compressedSize <= |base|
  {
    if f.location + f.compressedSize <= |base| then
      var input := base[f.location..f.location + f.compressedSize];
      var size := if wantSize then Some(AsIsize(f.fullSize)) else None;
      Ok(FileData(FillBuffer(decompress(input, OutputSize(f)), OutputSize(f)), size))
    else Err(PayloadOutsideBuffer)
  }

  /** wSarGetFileData: allocates the zeroed output buffer and lets the decompressor
      fill it. */
  method GetFileData(a: Archive, name: seq<u8>, decompress: Decompressor, wantSize: bool)
    returns (r: Result<FileData, ReadFault>)
    requires |a.base| >= HEADER_SIZE && TableInBuffer(a) && NUL in name
    ensures r == FileDataOf(a, name, decompress, wantSize)
  {
    var file := RecordFor(a, name);
    if file.Err? {
      return Err(file.error);
    }
    var f := file.value;
    if f.location + f.compressedSize > |a.base| {
      return Err(PayloadOutsideBuffer);
    }
    var input := a.base[f.location..f.location + f.compressedSize];
    var cap := OutputSize(f);
    var output := Decompress(decompress, input, cap);
    var sizeOut := None;
    if wantSize {
      sizeOut := Some(AsIsize(f.fullSize));
    }
    return Ok(FileData(output, sizeOut));
  }

  /** The decompression call: a zeroed buffer of `cap` bytes that the decompressor
      writes from the start. */
  method Decompress(decompress: Decompressor, input: seq<u8>, cap: nat) returns (output: seq<u8>)
    ensures output == FillBuffer(decompress(input, cap), cap)
  {
    var written := decompress(input, cap);
    var buf := new u8[cap](_ => 0);
    var n := if |written| < cap then |written| else cap;
    for i := 0 to n
      invariant forall j :: 0 <= j < i ==> buf[j] == written[j]
      invariant forall j :: i <= j < cap ==> buf[j] == 0
    {
      buf[i] := written[i];
    }
    output := buf[..];
  }
}
