/** The staged archive builder of src/sartool/sar.c:145-292. The editing archive keeps
    three arenas: the final arena (the header, then what is pushed after it), the table
    arena (one wSarFile per added file) and the data arena (the compressed payloads).
    An arena push appends, so each arena is a sequence and its head is its length. While
    staged, an entry's `location` is the offset of its payload in the data arena;
    finalizing lays out header | description | table | data in the final arena and adds
    the data's offset to every `location`. */
module SarBuilder {
  import opened Bytes
  import opened Wrappers
  import opened Fnv
  import opened KeyedSort
  import opened KeyedSearch
  import opened SarFormat
  import opened SarReader
  import opened Codec

  /** The sort key of both the sort and the search. */
  function HashKey(f: SarFile): int {
    f.id.hash
  }

  /** The hash column of a table. */
  function HashColumn(fs: seq<SarFile>): (r: seq<int>)
    ensures |r| == |fs| && forall k :: 0 <= k < |fs| ==> r[k] == fs[k].id.hash
  {
    seq(|fs|, k requires 0 <= k < |fs| => fs[k].id.hash)
  }

  /** The payload of entry `f` lies inside a data blob of `n` bytes. */
  predicate InData(f: SarFile, n: nat) {
    f.location + f.compressedSize <= n
  }

  predicate AllInData(fs: seq<SarFile>, n: nat) {
    forall k :: 0 <= k < |fs| ==> InData(fs[k], n)
  }

  /** The bytes of entry `f`'s payload in `blob`. */
  function PayloadIn(blob: seq<u8>, f: SarFile): (r: seq<u8>)
    requires InData(f, |blob|)
    ensures |r| == f.compressedSize
  {
    blob[f.location..f.location + f.compressedSize]
  }

  // ------------------------------------------------------------------
  // The editing archive as a value

  /** The fields of wSarEditingArchive (src/sartool/sar.c:147-161) that carry state:
      the header, the bytes of the final arena after the header, the count, the
      table arena and the data arena. */
  datatype Staging = Staging(
    header: SarHeader, finalArena: seq<u8>, fileCount: u64,
    fileTable: seq<SarFile>, fileData: seq<u8>)

  /** What every operation keeps: both counts equal the number of staged entries,
      and every staged payload lies in the data arena. */
  ghost predicate Consistent(st: Staging) {
    st.fileCount == |st.fileTable| == st.header.fileCount
    && AllInData(st.fileTable, |st.fileData|)
  }

  // ------------------------------------------------------------------
  // wSarCreateEditingArchive (src/sartool/sar.c:163-205)

  /** The payloads of `fs`, copied out of `base` and appended in table order. */
  function Payloads(base: seq<u8>, fs: seq<SarFile>): (r: seq<u8>)
    requires AllInData(fs, |base|)
  {
    if |fs| == 0 then []
    else Payloads(base, fs[..|fs| - 1]) + PayloadIn(base, fs[|fs| - 1])
  }

  /** The imported table: the entries in order, each `location` rewritten to the
      offset of its copied payload. */
  function Rebased(base: seq<u8>, fs: seq<SarFile>): (r: seq<SarFile>)
    requires AllInData(fs, |base|)
    ensures |r| == |fs|
  {
    if |fs| == 0 then []
    else
      var init := fs[..|fs| - 1];
      Rebased(base, init) + [fs[|fs| - 1].(location := Wrap64(|Payloads(base, init)|))]
  }

  /** What the import reads must lie in the existing archive's buffer, and the copied
      payloads must fit a 64-bit address space. */
  ghost predicate Importable(a: Archive) {
    |a.base| >= HEADER_SIZE && TableInBuffer(a) && AllInData(Files(a), |a.base|)
    && |Payloads(a.base, Files(a))| < U64_LIMIT
  }

  /** The state `wSarCreateEditingArchive` leaves: a zeroed header and empty arenas,
      or the existing header (re-stamped), a zeroed description area of the existing
      length, and the existing table and payloads copied. */
  function Created(existing: Option<Archive>): Staging
    requires existing.Some? ==> Importable(existing.value)
  {
    match existing
    case None => Staging(ZERO_HEADER, [], 0, [], [])
    case Some(a) =>
      var h := HeaderOf(a);
      var fs := Files(a);
      FileCountField(a);
      Staging(h.(magic := MAGIC, version := VERSION), Zeros(h.descriptionLength),
              h.fileCount, Rebased(a.base, fs), Payloads(a.base, fs))
  }

  lemma {:induction false} PayloadsLength(base: seq<u8>, fs: seq<SarFile>, i: nat)
    requires AllInData(fs, |base|) && i <= |fs|
    ensures AllInData(fs[..i], |base|)
    ensures |Payloads(base, fs[..i])| <= |Payloads(base, fs)|
  {
    if i < |fs| {
      var init := fs[..|fs| - 1];
      assert init[..i] == fs[..i];
      PayloadsLength(base, init, i);
    } else {
      assert fs[..i] == fs;
    }
  }

  /** Entry k of an imported table: every field but `location` is the existing
      entry's, and at its new `location` the copied blob holds exactly the bytes the
      existing archive holds at the old one. */
  lemma {:induction false} RebasedAt(base: seq<u8>, fs: seq<SarFile>, k: int)
    requires AllInData(fs, |base|) && |Payloads(base, fs)| < U64_LIMIT
    requires 0 <= k < |fs|
    ensures Rebased(base, fs)[k] == fs[k].(location := Rebased(base, fs)[k].location)
    ensures InData(Rebased(base, fs)[k], |Payloads(base, fs)|)
    ensures PayloadIn(Payloads(base, fs), Rebased(base, fs)[k]) == PayloadIn(base, fs[k])
  {
    var init := fs[..|fs| - 1];
    assert AllInData(init, |base|);
    PayloadsLength(base, fs, |fs| - 1);
    if k < |fs| - 1 {
      assert init[k] == fs[k];
      RebasedAt(base, init, k);
      var p := Payloads(base, init);
      var f := Rebased(base, init)[k];
      assert Payloads(base, fs) == p + PayloadIn(base, fs[|fs| - 1]);
      assert Payloads(base, fs)[f.location..f.location + f.compressedSize]
          == p[f.location..f.location + f.compressedSize];
    } else {
      var p := Payloads(base, init);
      assert Payloads(base, fs) == p + PayloadIn(base, fs[k]);
      assert Rebased(base, fs)[k].location == |p|;
    }
  }

  lemma {:induction false} RebasedInData(base: seq<u8>, fs: seq<SarFile>)
    requires AllInData(fs, |base|) && |Payloads(base, fs)| < U64_LIMIT
    ensures AllInData(Rebased(base, fs), |Payloads(base, fs)|)
  {
    forall k | 0 <= k < |fs|
      ensures InData(Rebased(base, fs)[k], |Payloads(base, fs)|)
    {
      RebasedAt(base, fs, k);
    }
  }

  /** Import from an existing archive (src/sartool/sar.c:178-201): the header is the
      existing one with magic and version re-stamped; both counts are the existing
      count; entry k is existing entry k with its payload copied (same bytes) and
      `location` pointing at the copy; the description area is zeroed, not copied. */
  lemma ImportCopies(a: Archive, k: int)
    requires Importable(a) && 0 <= k < FileCount(a)
    ensures Created(Some(a)).header == HeaderOf(a).(magic := MAGIC, version := VERSION)
    ensures Created(Some(a)).fileCount == Created(Some(a)).header.fileCount == |Files(a)|
    ensures Created(Some(a)).finalArena == Zeros(HeaderOf(a).descriptionLength)
    ensures Files(a)[k] == FileAt(a, k)
    ensures var st := Created(Some(a));
      st.fileTable[k] == FileAt(a, k).(location := st.fileTable[k].location)
      && InData(st.fileTable[k], |st.fileData|)
      && PayloadIn(st.fileData, st.fileTable[k]) == PayloadIn(a.base, Files(a)[k])
  {
    FileCountField(a);
    FilesAt(a, k);
    RebasedAt(a.base, Files(a), k);
  }

  /** Both kinds of creation produce a consistent builder; without an existing
      archive the header is zeroed and there are no entries and no data. */
  lemma CreatedConsistent(existing: Option<Archive>)
    requires existing.Some? ==> Importable(existing.value)
    ensures Consistent(Created(existing))
    ensures existing.None? ==> Created(existing) == Staging(ZERO_HEADER, [], 0, [], [])
  {
    if existing.Some? {
      var a := existing.value;
      FileCountField(a);
      RebasedInData(a.base, Files(a));
    }
  }

  // ------------------------------------------------------------------
  // wSarAddFile (src/sartool/sar.c:213-236)

  /** The name as stored: its first min(strlen(name), 55) bytes. */
  function StoredName(name: seq<u8>): (r: seq<u8>)
    requires NUL in name
    ensures |r| <= NAME_LEN && NUL !in r
    ensures |r| == if |CString(name)| <= NAME_LEN then |CString(name)| else NAME_LEN
    ensures r == CString(name)[..|r|]
  {
    var s := CString(name);
    if |s| <= NAME_LEN then s else s[..NAME_LEN]
  }

  /** The 55-byte name buffer of the new entry: the stored name, then the zeroes of
      the fresh allocation. */
  function NameField(name: seq<u8>): Name
    requires NUL in name
  {
    StoredName(name) + Zeros(NAME_LEN - |StoredName(name)|)
  }

  /** The entry `wSarAddFile` pushes for a file of `size` bytes. Its hash is taken
      from the stored name buffer, read up to the `zero` byte after it. A failed
      compression leaves compressedSize and location as the zeroed allocation had
      them. */
  function NewEntry(name: seq<u8>, size: nat, compressed: Option<seq<u8>>, dataEnd: nat): SarFile
    requires NUL in name
  {
    var field := NameField(name);
    SarFile(SarId(Hash(CString(field + [NUL])), field, 0), 0, 0,
            if compressed.Some? then Wrap64(|compressed.value|) else 0,
            Wrap64(size),
            if compressed.Some? then Wrap64(dataEnd) else 0)
  }

  /** The state after `wSarAddFile(e, name, data, size)`. */
  function Added(st: Staging, name: seq<u8>, data: seq<u8>, compress: Compressor): Staging
    requires NUL in name
  {
    var c := compress(data);
    st.(fileCount := Wrap64(st.fileCount + 1),
        header := st.header.(fileCount := Wrap64(st.header.fileCount + 1)),
        fileTable := st.fileTable + [NewEntry(name, |data|, c, |st.fileData|)],
        fileData := st.fileData + (if c.Some? then c.value else []))
  }

  /** The hash is computed from the stored, possibly truncated, name. */
  lemma NameFieldHash(name: seq<u8>)
    requires NUL in name
    ensures NUL in NameField(name) + [NUL]
    ensures CString(NameField(name) + [NUL]) == StoredName(name)
    ensures NameField(name)[..|StoredName(name)|] == StoredName(name)
    ensures forall i :: |StoredName(name)| <= i < NAME_LEN ==> NameField(name)[i] == 0
  {
    var r := StoredName(name);
    var z := Zeros(NAME_LEN - |r|);
    if |z| == 0 {
      assert NameField(name) + [NUL] == r + [NUL] + [];
      StrLenOfTerminated(r, []);
    } else {
      assert z == [NUL] + z[1..];
      assert NameField(name) + [NUL] == r + [NUL] + (z[1..] + [NUL]);
      StrLenOfTerminated(r, z[1..] + [NUL]);
    }
  }

  /** `wSarAddFile` adds exactly one to both counts (src/sartool/sar.c:215-216) and
      appends one entry, leaving the earlier entries as they were. */
  lemma AddFileCounts(st: Staging, name: seq<u8>, data: seq<u8>, compress: Compressor)
    requires Consistent(st) && NUL in name && st.fileCount + 1 < U64_LIMIT
    ensures Added(st, name, data, compress).fileCount == st.fileCount + 1
    ensures Added(st, name, data, compress).header.fileCount == st.header.fileCount + 1
    ensures |Added(st, name, data, compress).fileTable| == |st.fileTable| + 1
    ensures Added(st, name, data, compress).fileTable[..|st.fileTable|] == st.fileTable
    ensures Added(st, name, data, compress).fileData[..|st.fileData|] == st.fileData
  {
  }

  /** The new entry of `wSarAddFile` (src/sartool/sar.c:218-234): the stored name, its
      hash, and the input size as fullSize; on success its compressed bytes are
      appended to the data arena and the entry points at them, on failure nothing is
      appended and size and location stay zero. */
  lemma AddFileEntry(st: Staging, name: seq<u8>, data: seq<u8>, compress: Compressor)
    requires NUL in name && |data| < U64_LIMIT
    requires compress(data).Some? ==> |st.fileData| + |compress(data).value| < U64_LIMIT
    ensures var f := Added(st, name, data, compress).fileTable[|st.fileTable|];
      f.id.name[..|StoredName(name)|] == StoredName(name)
      && f.id.hash == Hash(StoredName(name))
      && f.fullSize == |data|
    ensures var st' := Added(st, name, data, compress);
      var f := st'.fileTable[|st.fileTable|];
      match compress(data)
      case Some(c) =>
        st'.fileData == st.fileData + c && f.compressedSize == |c|
        && f.location == |st.fileData| && InData(f, |st'.fileData|)
        && PayloadIn(st'.fileData, f) == c
      case None =>
        st'.fileData == st.fileData && f.compressedSize == 0 && f.location == 0
  {
    NameFieldHash(name);
  }

  /** The entries staged before `wSarAddFile` and their payloads stay as they were. */
  lemma AddFileKeeps(st: Staging, name: seq<u8>, data: seq<u8>, compress: Compressor, k: int)
    requires Consistent(st) && NUL in name && 0 <= k < |st.fileTable|
    ensures var st' := Added(st, name, data, compress);
      k < |st'.fileTable| && st'.fileTable[k] == st.fileTable[k]
      && InData(st.fileTable[k], |st'.fileData|)
      && PayloadIn(st'.fileData, st.fileTable[k]) == PayloadIn(st.fileData, st.fileTable[k])
  {
    var st' := Added(st, name, data, compress);
    var f := st.fileTable[k];
    assert st'.fileData[..|st.fileData|] == st.fileData;
    assert st'.fileData[f.location..f.location + f.compressedSize]
        == st.fileData[f.location..f.location + f.compressedSize];
  }

  lemma AddFileConsistent(st: Staging, name: seq<u8>, data: seq<u8>, compress: Compressor)
    requires Consistent(st) && NUL in name && st.fileCount + 1 < U64_LIMIT
    requires compress(data).Some? ==> |st.fileData| + |compress(data).value| < U64_LIMIT
    ensures Consistent(Added(st, name, data, compress))
  {
    var st' := Added(st, name, data, compress);
    forall k | 0 <= k < |st'.fileTable|
      ensures InData(st'.fileTable[k], |st'.fileData|)
    {
      if k < |st.fileTable| {
        assert st'.fileTable[k] == st.fileTable[k];
      }
    }
  }

  // ------------------------------------------------------------------
  // wSarFinalizeArchive (src/sartool/sar.c:253-291)

  /** Every `location` moved by `delta`, in u64 arithmetic (the loop's `+=`). */
  function Relocate(fs: seq<SarFile>, delta: int): (r: seq<SarFile>)
    ensures |r| == |fs|
    ensures forall k :: 0 <= k < |fs| ==> r[k] == fs[k].(location := Wrap64(fs[k].location + delta))
  {
    seq(|fs|, k requires 0 <= k < |fs| => fs[k].(location := Wrap64(fs[k].location + delta)))
  }

  /** Offset of the copied table from the header. */
  function TableStart(st: Staging): nat {
    HEADER_SIZE + |st.finalArena|
  }

  /** Offset of the copied data from the header. */
  function DataStart(st: Staging): nat {
    TableStart(st) + FILE_SIZE * |st.fileTable|
  }

  function SortedTable(st: Staging): seq<SarFile> {
    InsertionSort(st.fileTable, HashKey)
  }

  /** The table as it is written out: sorted, then relocated. */
  function FinalTable(st: Staging): seq<SarFile> {
    Relocate(SortedTable(st), DataStart(st))
  }

  function FinalHeader(st: Staging): SarHeader {
    st.header.(fileTableLocation := Wrap64(TableStart(st)), magic := MAGIC, version := VERSION)
  }

  /** The final arena after the header: what was there, the table, the data. */
  function FinalArena(st: Staging): seq<u8> {
    st.finalArena + EncodeTable(FinalTable(st)) + st.fileData
  }

  /** What precedes the table in the image: the header and the arena's earlier contents. */
  function Prefix(st: Staging): (r: seq<u8>)
    ensures |r| == TableStart(st)
  {
    EncodeHeader(FinalHeader(st)) + st.finalArena
  }

  /** The bytes from the header to the head of the final arena: the archive. */
  function Image(st: Staging): (r: seq<u8>)
    ensures |r| == DataStart(st) + |st.fileData|
  {
    InsertionSortLength(st.fileTable, HashKey);
    Prefix(st) + EncodeTable(FinalTable(st)) + st.fileData
  }

  /** The image is the new header followed by the final arena. */
  lemma ImageSplit(st: Staging)
    ensures Image(st) == EncodeHeader(FinalHeader(st)) + FinalArena(st)
  {
    Regroup(EncodeHeader(FinalHeader(st)), st.finalArena, EncodeTable(FinalTable(st)), st.fileData);
  }

  lemma Regroup<T>(h: seq<T>, x: seq<T>, y: seq<T>, z: seq<T>)
    ensures h + x + y + z == h + (x + y + z)
  {
  }

  /** The state finalizing leaves: the staged table sorted in place (not relocated),
      the header re-stamped, the final arena extended. */
  function Finalized(st: Staging): Staging {
    st.(header := FinalHeader(st), finalArena := FinalArena(st), fileTable := SortedTable(st))
  }

  /** The sort leaves the table ascending by hash, as a permutation of the staged
      entries in which entries with equal hashes keep their order. */
  lemma FinalTableSorted(st: Staging)
    ensures SortedBy(SortedTable(st), HashKey)
    ensures Ascending(HashColumn(SortedTable(st)))
    ensures multiset(SortedTable(st)) == multiset(st.fileTable)
    ensures forall h :: WithKey(SortedTable(st), HashKey, h) == WithKey(st.fileTable, HashKey, h)
  {
    InsertionSortSorted(st.fileTable, HashKey);
    InsertionSortPermutes(st.fileTable, HashKey);
    forall h {
      InsertionSortStable(st.fileTable, HashKey, h);
    }
    SortedAscending(SortedTable(st));
  }

  lemma SortedAscending(fs: seq<SarFile>)
    requires SortedBy(fs, HashKey)
    ensures Ascending(HashColumn(fs))
  {
    var c := HashColumn(fs);
    forall i, j | 0 <= i < j < |c| ensures c[i] <= c[j] {
      assert HashKey(fs[i]) <= HashKey(fs[j]);
    }
  }

  /** The header of the image: the staged header with fileTableLocation set, magic
      and version stamped, and archiveSize left as it was. */
  lemma FinalizeHeader(st: Staging)
    ensures |Image(st)| >= HEADER_SIZE
    ensures DecodeHeader(Image(st)[..HEADER_SIZE]) == FinalHeader(st)
    ensures FinalHeader(st).magic == MAGIC && FinalHeader(st).version == VERSION
    ensures FinalHeader(st).archiveSize == st.header.archiveSize
    ensures FinalHeader(st).fileCount == st.header.fileCount
    ensures FinalHeader(st).descriptionLength == st.header.descriptionLength
    ensures TableStart(st) < U64_LIMIT ==> FinalHeader(st).fileTableLocation == TableStart(st)
  {
    assert Image(st)[..HEADER_SIZE] == EncodeHeader(FinalHeader(st));
    HeaderRoundTrip(FinalHeader(st));
  }

  /** Where the pieces lie in the image: the table starts right after the final
      arena's earlier contents, and the whole data blob follows the table. */
  lemma FinalizeLayout(st: Staging)
    ensures |SortedTable(st)| == |st.fileTable|
    ensures Image(st)[TableStart(st)..DataStart(st)] == EncodeTable(FinalTable(st))
    ensures Image(st)[DataStart(st)..] == st.fileData
    ensures Image(st)[HEADER_SIZE..TableStart(st)] == st.finalArena
  {
    InsertionSortLength(st.fileTable, HashKey);
    Pieces(EncodeHeader(FinalHeader(st)), st.finalArena, EncodeTable(FinalTable(st)), st.fileData);
  }

  lemma Pieces<T>(h: seq<T>, x: seq<T>, y: seq<T>, z: seq<T>)
    ensures (h + x + y + z)[|h|..|h| + |x|] == x
    ensures (h + x + y + z)[|h| + |x|..|h| + |x| + |y|] == y
    ensures (h + x + y + z)[|h| + |x| + |y|..] == z
  {
  }

  lemma SortedInData(st: Staging, k: int)
    requires Consistent(st) && 0 <= k < |SortedTable(st)|
    ensures InData(SortedTable(st)[k], |st.fileData|)
  {
    InsertionSortPermutes(st.fileTable, HashKey);
    var f := SortedTable(st)[k];
    assert f in multiset(SortedTable(st));
    assert f in multiset(st.fileTable);
    var j :| 0 <= j < |st.fileTable| && st.fileTable[j] == f;
  }

  /** The relocation invariant: when the image fits in 64 bits, entry k of the written
      table points, relative to the header, at exactly the payload that was staged
      for it. */
  lemma FinalizeRelocation(st: Staging, k: int)
    requires Consistent(st) && |Image(st)| < U64_LIMIT
    requires 0 <= k < |st.fileTable|
    ensures |FinalTable(st)| == |st.fileTable|
    ensures FinalTable(st)[k].location == DataStart(st) + SortedTable(st)[k].location
    ensures InData(FinalTable(st)[k], |Image(st)|)
    ensures PayloadIn(Image(st), FinalTable(st)[k]) == PayloadIn(st.fileData, SortedTable(st)[k])
  {
    InsertionSortLength(st.fileTable, HashKey);
    SortedInData(st, k);
    FinalizeLayout(st);
    PayloadMoved(Image(st), DataStart(st), st.fileData, SortedTable(st)[k], FinalTable(st)[k]);
  }

  /** A payload of `data` is found `d` bytes further on in a blob whose suffix from
      `d` is `data`. */
  lemma PayloadMoved(blob: seq<u8>, d: nat, data: seq<u8>, f: SarFile, g: SarFile)
    requires d <= |blob| && blob[d..] == data && InData(f, |data|)
    requires g.location == d + f.location && g.compressedSize == f.compressedSize
    ensures InData(g, |blob|) && PayloadIn(blob, g) == PayloadIn(data, f)
  {
    assert blob[d..][f.location..f.location + f.compressedSize]
        == blob[g.location..g.location + g.compressedSize];
  }

  /** Finalizing keeps the builder consistent (its staged table is now sorted). */
  lemma FinalizedConsistent(st: Staging)
    requires Consistent(st)
    ensures Consistent(Finalized(st))
  {
    InsertionSortLength(st.fileTable, HashKey);
    forall k | 0 <= k < |SortedTable(st)|
      ensures InData(SortedTable(st)[k], |st.fileData|)
    {
      SortedInData(st, k);
    }
  }

  // ------------------------------------------------------------------
  // The imperative builder

  /** wSarSortFiles (src/sartool/sar.c:238-251): the insertion sort by hash on the
      first `count` entries. */
  method SortFiles(files: array<SarFile>, count: int)
    requires count <= files.Length
    modifies files
    ensures var n := if count < 0 then 0 else count;
      files[..] == InsertionSort(old(files[..])[..n], HashKey) + old(files[..])[n..]
  {
    SortByKey(files, count, HashKey);
  }

  /** The relocation loop of src/sartool/sar.c:280-283 over the table copy. */
  method RelocateTable(table: array<SarFile>, delta: int)
    modifies table
    ensures table[..] == Relocate(old(table[..]), delta)
  {
    ghost var orig := table[..];
    for i := 0 to table.Length
      invariant forall j :: 0 <= j < i ==> table[j] == orig[j].(location := Wrap64(orig[j].location + delta))
      invariant forall j :: i <= j < table.Length ==> table[j] == orig[j]
    {
      table[i] := table[i].(location := Wrap64(table[i].location + delta));
    }
  }

  /** One more entry imported: its payload appended, its location rewritten. */
  lemma {:induction false} ImportStep(base: seq<u8>, fs: seq<SarFile>, i: int)
    requires AllInData(fs, |base|) && 0 <= i < |fs|
    ensures AllInData(fs[..i], |base|) && AllInData(fs[..i + 1], |base|)
    ensures Payloads(base, fs[..i + 1]) == Payloads(base, fs[..i]) + PayloadIn(base, fs[i])
    ensures Rebased(base, fs[..i + 1])
         == Rebased(base, fs[..i]) + [fs[i].(location := Wrap64(|Payloads(base, fs[..i])|))]
  {
    assert fs[..i + 1][..i] == fs[..i];
  }

  /** The in-place sort of src/sartool/sar.c:268 on the staged table. */
  method SortedCopy(staged: seq<SarFile>) returns (sorted: seq<SarFile>)
    ensures sorted == InsertionSort(staged, HashKey)
  {
    var files := new SarFile[|staged|](k requires 0 <= k < |staged| => staged[k]);
    assert files[..] == staged;
    assert staged[..|staged|] == staged && staged[|staged|..] == [];
    SortFiles(files, |staged|);
    sorted := files[..];
  }

  /** The table copy pushed onto the final arena (src/sartool/sar.c:270-272), then
      relocated by the loop of src/sartool/sar.c:280-283. */
  method RelocatedCopy(sorted: seq<SarFile>, delta: int) returns (table: seq<SarFile>)
    ensures table == Relocate(sorted, delta)
  {
    var copy := new SarFile[|sorted|](k requires 0 <= k < |sorted| => sorted[k]);
    assert copy[..] == sorted;
    RelocateTable(copy, delta);
    table := copy[..];
  }

  /** The import loop of src/sartool/sar.c:188-199 on the copied table `fs`: each
      entry's payload is appended to the data arena and its location rewritten. */
  method ImportFiles(base: seq<u8>, fs: seq<SarFile>) returns (table: seq<SarFile>, data: seq<u8>)
    requires AllInData(fs, |base|)
    ensures table == Rebased(base, fs) && data == Payloads(base, fs)
  {
    var t := new SarFile[|fs|](k requires 0 <= k < |fs| => fs[k]);
    data := [];
    for i := 0 to t.Length
      invariant AllInData(fs[..i], |base|)
      invariant t[..i] == Rebased(base, fs[..i]) && data == Payloads(base, fs[..i])
      invariant forall j :: i <= j < t.Length ==> t[j] == fs[j]
    {
      ImportStep(base, fs, i);
      var f := t[i];
      var at := |data|;
      data := data + base[f.location..f.location + f.compressedSize];
      t[i] := f.(location := Wrap64(at));
      assert t[..i + 1] == t[..i] + [t[i]];
    }
    assert fs[..t.Length] == fs;
    table := t[..];
  }

  /** The entry of src/sartool/sar.c:217-234: the name copied into the zeroed name
      buffer (at most 55 bytes), the hash of that buffer, the sizes and location. */
  method MakeEntry(name: seq<u8>, size: nat, compressed: Option<seq<u8>>, dataEnd: nat)
    returns (file: SarFile)
    requires NUL in name
    ensures file == NewEntry(name, size, compressed, dataEnd)
  {
    var stored := StoredName(name);
    var field: Name := stored + Zeros(NAME_LEN - |stored|);
    assert field == NameField(name);
    NameFieldHash(name);
    var hash := HashString(field + [NUL]);
    var compressedSize: u64 := 0;
    var location: u64 := 0;
    if compressed.Some? {
      compressedSize, location := Wrap64(|compressed.value|), Wrap64(dataEnd);
    }
    file := SarFile(SarId(hash, field, 0), 0, 0, compressedSize, Wrap64(size), location);
  }

  /** wSarEditingArchive: the header, the final arena after it, the count, the table
      arena and the data arena, updated in place by the operations below. */
  class EditingArchive {
    var header: SarHeader
    var finalArena: seq<u8>
    var fileCount: u64
    var fileTable: seq<SarFile>
    var fileData: seq<u8>

    function State(): Staging
      reads this
    {
      Staging(header, finalArena, fileCount, fileTable, fileData)
    }

    ghost predicate Valid()
      reads this
    {
      Consistent(State())
    }

    /** wSarCreateEditingArchive. */
    constructor Create(existing: Option<Archive>)
      requires existing.Some? ==> Importable(existing.value)
      ensures State() == Created(existing) && Valid()
    {
      var h := ZERO_HEADER;
      var arena: seq<u8> := [];
      var count: u64 := 0;
      var table: seq<SarFile> := [];
      var data: seq<u8> := [];
      if existing.Some? {
        var a := existing.value;
        var exhead := HeaderOf(a);
        h := exhead.(magic := MAGIC, version := VERSION);
        if exhead.descriptionLength > 0 {
          arena := Zeros(exhead.descriptionLength);
        }
        FileCountField(a);
        if exhead.fileCount > 0 {
          table, data := ImportFiles(a.base, Files(a));
          count := exhead.fileCount;
          h := h.(fileCount := count);
        } else {
          assert Files(a) == [];
        }
      }
      header, finalArena, fileCount, fileTable, fileData := h, arena, count, table, data;
      CreatedConsistent(existing);
    }

    /** wSarAddFile. The data arena must stay within the 64-bit address space, and the
        count below 2^64 - 1 (it counts 96-byte entries held in memory). */
    method AddFile(name: seq<u8>, data: seq<u8>, compress: Compressor)
      requires Valid() && NUL in name && fileCount + 1 < U64_LIMIT
      requires compress(data).Some? ==> |fileData| + |compress(data).value| < U64_LIMIT
      modifies this
      ensures State() == Added(old(State()), name, data, compress) && Valid()
    {
      ghost var st := State();
      fileCount := fileCount + 1;
      header := header.(fileCount := header.fileCount + 1);
      var compressed := compress(data);
      var file := MakeEntry(name, |data|, compressed, |fileData|);
      if compressed.Some? {
        fileData := fileData + compressed.value;
      }
      fileTable := fileTable + [file];
      AddFileConsistent(st, name, data, compress);
    }

    /** wSarFinalizeArchive: returns the archive's bytes (from the header to the head
        of the final arena) and their count. */
    method Finalize() returns (image: seq<u8>, size: int)
      requires Valid()
      modifies this
      ensures State() == Finalized(old(State())) && Valid()
      ensures image == Image(old(State())) && size == |image|
    {
      ghost var st := State();
      var sorted := SortedCopy(fileTable);
      var tableAt := HEADER_SIZE + |finalArena|;
      var dataAt := tableAt + FILE_SIZE * fileCount;
      assert dataAt == DataStart(st);
      var table := RelocatedCopy(sorted, dataAt);
      var arena := finalArena + EncodeTable(table) + fileData;
      assert arena == FinalArena(st);
      var h := header.(fileTableLocation := Wrap64(tableAt));
      h := h.(magic := MAGIC, version := VERSION);
      assert h == FinalHeader(st);
      header, finalArena, fileTable := h, arena, sorted;
      size := HEADER_SIZE + |arena|;
      image := EncodeHeader(h) + arena;
      ImageSplit(st);
      FinalizedConsistent(st);
    }
  }
}
