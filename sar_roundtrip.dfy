/** What the builder of src/sartool/sar.c writes, the reader of src/wpl/wplArchive.c
    reads back: the header decodes, the table is where the header says, ascending by
    hash, and `wSarGetFileData` on a stored name returns its bytes. */
module SarRoundTrip {
  import opened Bytes
  import opened Wrappers
  import opened Fnv
  import opened KeyedSort
  import opened KeyedSearch
  import opened SarFormat
  import opened SarReader
  import opened SarBuilder
  import opened Codec

  // ------------------------------------------------------------------
  // Reading a finalized image

  /** The view of a finalized image: the whole image, the description right after the
      header, the table where the builder copied it. `LoadFinalized` shows that this
      is the view `wSarLoad` makes of the image. */
  function Reopened(st: Staging): (a: Archive)
    ensures a.base == Image(st) && |a.base| >= HEADER_SIZE
  {
    Archive(Image(st), HEADER_SIZE, TableStart(st))
  }

  /** Loading a finalized image prints nothing and gives the view above, whose header
      is the finalized header and whose table has as many entries as were staged. */
  lemma LoadFinalized(st: Staging)
    requires Consistent(st) && |Image(st)| < U64_LIMIT
    ensures Load(Image(st)).archive == Reopened(st)
    ensures Load(Image(st)).messages == []
    ensures HeaderOf(Reopened(st)) == FinalHeader(st)
    ensures FileCount(Reopened(st)) == |st.fileTable|
    ensures TableInBuffer(Reopened(st))
  {
    FinalizeHeader(st);
    FileCountField(Reopened(st));
  }

  /** Entry k of the reopened archive is entry k of the table the builder wrote. */
  lemma ReadBackEntry(st: Staging, k: int)
    requires Consistent(st) && |Image(st)| < U64_LIMIT
    requires 0 <= k < |st.fileTable|
    ensures |Image(st)| >= HEADER_SIZE && TableInBuffer(Reopened(st)) && k < FileCount(Reopened(st))
    ensures |FinalTable(st)| == |st.fileTable|
    ensures FileAt(Reopened(st), k) == FinalTable(st)[k]
  {
    LoadFinalized(st);
    InsertionSortLength(st.fileTable, HashKey);
    var a := Reopened(st);
    var pre, fs, post := Prefix(st), FinalTable(st), st.fileData;
    assert a.base == pre + EncodeTable(fs) + post && a.files == |pre|;
    TableIn(pre, fs, post, k);
    var at := a.files + FILE_SIZE * k;
    assert FileAt(a, k) == DecodeFile(a.base[at..at + FILE_SIZE]);
  }

  /** The reopened hash column is the sorted table's hash column, so it is ascending. */
  lemma ReadBackHashes(st: Staging)
    requires Consistent(st) && |Image(st)| < U64_LIMIT
    ensures |Image(st)| >= HEADER_SIZE && TableInBuffer(Reopened(st))
    ensures Hashes(Reopened(st)) == HashColumn(SortedTable(st))
    ensures Ascending(Hashes(Reopened(st)))
  {
    LoadFinalized(st);
    InsertionSortLength(st.fileTable, HashKey);
    var a, fs := Reopened(st), FinalTable(st);
    forall k | 0 <= k < |fs| ensures FileAt(a, k) == fs[k] {
      ReadBackEntry(st, k);
    }
    HashesRead(a, fs);
    assert HashColumn(fs) == HashColumn(SortedTable(st));
    FinalTableSorted(st);
  }

  /** A view that reads entry k as `fs[k]` for every k has the hash column of `fs`. */
  lemma HashesRead(a: Archive, fs: seq<SarFile>)
    requires |a.base| >= HEADER_SIZE && TableInBuffer(a) && FileCount(a) == |fs|
    requires forall k :: 0 <= k < |fs| ==> FileAt(a, k) == fs[k]
    ensures Hashes(a) == HashColumn(fs)
  {
    forall k | 0 <= k < |fs| ensures Hashes(a)[k] == HashColumn(fs)[k] {
      HashesAt(a, k);
    }
  }

  // ------------------------------------------------------------------
  // Building from a list of files

  /** One call of `wSarAddFile`: the name and the uncompressed bytes. */
  datatype Entry = Entry(name: seq<u8>, data: seq<u8>)

  predicate Named(es: seq<Entry>) {
    forall i :: 0 <= i < |es| ==> NUL in es[i].name
  }

  /** A fresh editing archive after adding `es` in order. */
  function Build(es: seq<Entry>, compress: Compressor): Staging
    requires Named(es)
  {
    if |es| == 0 then Created(None)
    else
      var last := es[|es| - 1];
      Added(Build(es[..|es| - 1], compress), last.name, last.data, compress)
  }

  /** The bytes the data arena receives: the successful compressions, in order. */
  function DataSize(es: seq<Entry>, compress: Compressor): nat {
    if |es| == 0 then 0
    else
      var c := compress(es[|es| - 1].data);
      DataSize(es[..|es| - 1], compress) + (if c.Some? then |c.value| else 0)
  }

  /** What fits the 64-bit fields the builder writes. */
  ghost predicate Fits(es: seq<Entry>, compress: Compressor) {
    |es| + 1 < U64_LIMIT && DataSize(es, compress) < U64_LIMIT
    && forall i :: 0 <= i < |es| ==> |es[i].data| < U64_LIMIT
  }

  lemma {:induction false} FitsPrefix(es: seq<Entry>, compress: Compressor)
    requires |es| > 0 && Fits(es, compress)
    ensures Fits(es[..|es| - 1], compress)
  {
    var init := es[..|es| - 1];
    forall i | 0 <= i < |init| ensures |init[i].data| < U64_LIMIT {
      assert init[i] == es[i];
    }
  }

  lemma {:induction false} NamedPrefix(es: seq<Entry>)
    requires |es| > 0 && Named(es)
    ensures Named(es[..|es| - 1])
  {
    var init := es[..|es| - 1];
    forall j | 0 <= j < |init| ensures NUL in init[j].name {
      assert init[j] == es[j];
    }
  }

  /** After `es` the builder is consistent, with one entry per file and exactly the
      successful compressions in its data arena. */
  lemma {:induction false} BuildShape(es: seq<Entry>, compress: Compressor)
    requires Named(es) && Fits(es, compress)
    ensures Consistent(Build(es, compress)) && |Build(es, compress).fileTable| == |es|
    ensures |Build(es, compress).fileData| == DataSize(es, compress)
  {
    if |es| == 0 {
      CreatedConsistent(None);
    } else {
      var init := es[..|es| - 1];
      var last := es[|es| - 1];
      NamedPrefix(es);
      FitsPrefix(es, compress);
      BuildShape(init, compress);
      var st := Build(init, compress);
      AddFileCounts(st, last.name, last.data, compress);
      AddFileConsistent(st, last.name, last.data, compress);
    }
  }

  /** Entry k of `st` is the staging of file `e`: its stored name hash and size,
      and, when the file compressed, the compressed bytes as its payload. */
  ghost predicate StagedAs(st: Staging, k: int, e: Entry, compress: Compressor)
    requires 0 <= k < |st.fileTable| && NUL in e.name
  {
    var f := st.fileTable[k];
    f.id.hash == Hash(StoredName(e.name)) && f.fullSize == |e.data|
    && (compress(e.data).Some? ==>
          InData(f, |st.fileData|) && PayloadIn(st.fileData, f) == compress(e.data).value)
  }

  /** A later `wSarAddFile` keeps an earlier staging. */
  lemma StagedKept(st: Staging, name: seq<u8>, data: seq<u8>, compress: Compressor, k: int, e: Entry)
    requires Consistent(st) && NUL in name && 0 <= k < |st.fileTable| && NUL in e.name
    requires StagedAs(st, k, e, compress)
    ensures k < |Added(st, name, data, compress).fileTable|
    ensures StagedAs(Added(st, name, data, compress), k, e, compress)
  {
    AddFileKeeps(st, name, data, compress, k);
  }

  /** `wSarAddFile` stages its file in the new last entry. */
  lemma StagedNew(st: Staging, name: seq<u8>, data: seq<u8>, compress: Compressor)
    requires NUL in name && |data| < U64_LIMIT
    requires compress(data).Some? ==> |st.fileData| + |compress(data).value| < U64_LIMIT
    ensures |st.fileTable| < |Added(st, name, data, compress).fileTable|
    ensures StagedAs(Added(st, name, data, compress), |st.fileTable|, Entry(name, data), compress)
  {
    AddFileEntry(st, name, data, compress);
  }

  /** Every file added is staged: entry i carries file i's stored name hash and size,
      and when file i compressed, its payload is the compressed bytes. */
  lemma {:induction false} BuildStages(es: seq<Entry>, compress: Compressor, i: int)
    requires Named(es) && Fits(es, compress) && 0 <= i < |es|
    ensures Consistent(Build(es, compress)) && |Build(es, compress).fileTable| == |es|
    ensures StagedAs(Build(es, compress), i, es[i], compress)
  {
    BuildShape(es, compress);
    var init := es[..|es| - 1];
    var last := es[|es| - 1];
    NamedPrefix(es);
    FitsPrefix(es, compress);
    BuildShape(init, compress);
    var st := Build(init, compress);
    var b := Build(es, compress);
    assert b == Added(st, last.name, last.data, compress);
    if i < |init| {
      BuildStages(init, compress, i);
      assert init[i] == es[i];
      StagedKept(st, last.name, last.data, compress, i, es[i]);
      assert StagedAs(b, i, es[i], compress);
    } else {
      assert i == |es| - 1;
      assert last == Entry(last.name, last.data) == es[i];
      DataSizeLast(es, compress);
      StagedNew(st, last.name, last.data, compress);
      assert StagedAs(b, i, es[i], compress);
    }
  }

  lemma DataSizeLast(es: seq<Entry>, compress: Compressor)
    requires |es| > 0
    ensures var last := es[|es| - 1];
      compress(last.data).Some? ==>
        DataSize(es[..|es| - 1], compress) + |compress(last.data).value| == DataSize(es, compress)
  {
  }

  // ------------------------------------------------------------------
  // The round trip

  /** `st` holds one entry per file of `es`, in order, each the staging of its file. */
  ghost predicate Stages(st: Staging, es: seq<Entry>, compress: Compressor) {
    Named(es) && Consistent(st) && |st.fileTable| == |es|
    && forall k :: 0 <= k < |es| ==> StagedAs(st, k, es[k], compress)
  }

  lemma BuildStagesAll(es: seq<Entry>, compress: Compressor)
    requires Named(es) && Fits(es, compress)
    ensures Stages(Build(es, compress), es, compress)
  {
    BuildShape(es, compress);
    forall k | 0 <= k < |es| ensures StagedAs(Build(es, compress), k, es[k], compress) {
      BuildStages(es, compress, k);
    }
  }

  /** The names are all shorter than the 55-byte name field and their hashes are
      distinct and not the reader's "no file" value. */
  ghost predicate Addressable(es: seq<Entry>) {
    Named(es)
    && (forall i :: 0 <= i < |es| ==> |CString(es[i].name)| <= NAME_LEN)
    && (forall i :: 0 <= i < |es| ==> Hash(CString(es[i].name)) != U64_MAX)
    && (forall i, j :: 0 <= i < |es| && 0 <= j < |es| && i != j ==>
          Hash(CString(es[i].name)) != Hash(CString(es[j].name)))
  }

  /** A stored name is its whole C string when it fits the field. */
  lemma StoredWhole(name: seq<u8>)
    requires NUL in name && |CString(name)| <= NAME_LEN
    ensures StoredName(name) == CString(name)
  {
  }

  /** The entry staged for an addressable file carries the hash of its name. */
  lemma StagedHash(st: Staging, es: seq<Entry>, compress: Compressor, i: int)
    requires Addressable(es) && Stages(st, es, compress) && 0 <= i < |es|
    ensures st.fileTable[i].id.hash == Hash(CString(es[i].name))
  {
    assert StagedAs(st, i, es[i], compress);
    StoredWhole(es[i].name);
  }

  /** The entry of file i is the only staged entry with its hash. */
  lemma StagedUnique(st: Staging, es: seq<Entry>, compress: Compressor, i: int)
    requires Addressable(es) && Stages(st, es, compress) && 0 <= i < |es|
    ensures WithKey(st.fileTable, HashKey, st.fileTable[i].id.hash) == [st.fileTable[i]]
  {
    var t := st.fileTable;
    StagedHash(st, es, compress, i);
    forall j | 0 <= j < |t| && j != i ensures HashKey(t[j]) != HashKey(t[i]) {
      StagedHash(st, es, compress, j);
    }
    WithKeyUnique(t, HashKey, i);
  }

  /** File i's entry sits at exactly one sorted position, and no other sorted entry
      has its hash. */
  lemma SortedPosition(st: Staging, es: seq<Entry>, compress: Compressor, i: int) returns (j: int)
    requires Addressable(es) && Stages(st, es, compress) && 0 <= i < |es|
    ensures 0 <= j < |st.fileTable| == |SortedTable(st)|
    ensures SortedTable(st)[j] == st.fileTable[i]
    ensures forall j' :: 0 <= j' < |SortedTable(st)| && j' != j ==>
      HashKey(SortedTable(st)[j']) != st.fileTable[i].id.hash
  {
    var e := st.fileTable[i];
    StagedUnique(st, es, compress, i);
    FinalTableSorted(st);
    InsertionSortLength(st.fileTable, HashKey);
    var sorted := SortedTable(st);
    assert WithKey(sorted, HashKey, e.id.hash) == [e];
    j := WithKeyOne(sorted, HashKey, e.id.hash, e);
  }

  /** The index the reader's search returns for file i: the one sorted position that
      holds file i's entry. */
  lemma FoundAt(st: Staging, es: seq<Entry>, compress: Compressor, i: int) returns (j: int)
    requires Addressable(es) && Stages(st, es, compress) && 0 <= i < |es|
    requires |Image(st)| < U64_LIMIT
    ensures 0 <= j < |st.fileTable| == |SortedTable(st)|
    ensures SortedTable(st)[j] == st.fileTable[i]
    ensures |Image(st)| >= HEADER_SIZE && TableInBuffer(Reopened(st))
    ensures IndexOf(Hashes(Reopened(st)), Hash(CString(es[i].name))) == j
  {
    j := SortedPosition(st, es, compress, i);
    StagedHash(st, es, compress, i);
    var h := Hash(CString(es[i].name));
    var sorted := SortedTable(st);
    ReadBackHashes(st);
    var keys := Hashes(Reopened(st));
    assert keys == HashColumn(sorted);
    forall j' | 0 <= j' < |keys| && j' != j ensures keys[j'] != h {
      assert keys[j'] == HashKey(sorted[j']);
    }
    IndexOfUnique(keys, h, j);
  }

  /** The record the reader picks for file i is the relocated entry of file i. */
  lemma RecordFound(st: Staging, es: seq<Entry>, compress: Compressor, i: int) returns (j: int)
    requires Addressable(es) && Stages(st, es, compress) && 0 <= i < |es|
    requires |Image(st)| < U64_LIMIT
    ensures 0 <= j < |st.fileTable| == |SortedTable(st)| == |FinalTable(st)|
    ensures SortedTable(st)[j] == st.fileTable[i]
    ensures |Image(st)| >= HEADER_SIZE && TableInBuffer(Reopened(st))
    ensures RecordFor(Reopened(st), es[i].name) == Ok(FinalTable(st)[j])
  {
    j := FoundAt(st, es, compress, i);
    LoadFinalized(st);
    ReadBackEntry(st, j);
    StagedHash(st, es, compress, i);
    RecordAt(Reopened(st), es[i].name, j);
  }

  /** A name whose hash the search finds at entry j reads entry j's record. */
  lemma RecordAt(a: Archive, name: seq<u8>, j: int)
    requires |a.base| >= HEADER_SIZE && TableInBuffer(a) && NUL in name
    requires Hash(CString(name)) != U64_MAX && 0 <= j < FileCount(a)
    requires IndexOf(Hashes(a), Hash(CString(name))) == j
    ensures RecordFor(a, name) == Ok(FileAt(a, j))
  {
    var at := a.files + FILE_SIZE * j;
    assert GetFile(a, name) == Record(at);
    assert FileAt(a, j) == DecodeFile(a.base[at..at + FILE_SIZE]);
  }

  /** The size a read of `data` stores through a non-NULL `sizeOut`: its length, as
      an `isize`, which is the length itself for any file below 2^63 bytes. */
  function Reported(data: seq<u8>, wantSize: bool): (r: Option<int>)
    requires |data| < U64_LIMIT
    ensures wantSize && |data| < ISIZE_LIMIT ==> r == Some(|data|)
    ensures !wantSize ==> r == None
  {
    if wantSize then Some(AsIsize(|data|)) else None
  }

  /** The reader's output for a record whose payload decompresses to `data`. */
  lemma DataOfRecord(a: Archive, name: seq<u8>, decompress: Decompressor, wantSize: bool, f: SarFile, data: seq<u8>)
    requires |a.base| >= HEADER_SIZE && TableInBuffer(a) && NUL in name
    requires RecordFor(a, name) == Ok(f)
    requires InData(f, |a.base|) && OutputSize(f) == |data| + 8 && f.fullSize == |data|
    requires decompress(PayloadIn(a.base, f), OutputSize(f)) == data
    ensures FileDataOf(a, name, decompress, wantSize) == Ok(FileData(data + Zeros(8), Reported(data, wantSize)))
  {
    assert FileDataOf(a, name, decompress, wantSize) == PayloadData(a.base, f, decompress, wantSize);
    PayloadOf(a.base, f, decompress, wantSize, data);
  }

  lemma PayloadOf(base: seq<u8>, f: SarFile, decompress: Decompressor, wantSize: bool, data: seq<u8>)
    requires InData(f, |base|) && OutputSize(f) == |data| + 8 && f.fullSize == |data|
    requires decompress(PayloadIn(base, f), OutputSize(f)) == data
    ensures PayloadData(base, f, decompress, wantSize) == Ok(FileData(data + Zeros(8), Reported(data, wantSize)))
  {
    var input := base[f.location..f.location + f.compressedSize];
    assert input == PayloadIn(base, f);
    assert FillBuffer(data, OutputSize(f)) == data + Zeros(8);
  }

  /** Reading file i back from the finalized image of a state that stages `es`. */
  lemma ReadsBack(st: Staging, es: seq<Entry>, compress: Compressor, decompress: Decompressor,
                  wantSize: bool, i: int)
    requires Addressable(es) && Stages(st, es, compress) && 0 <= i < |es|
    requires |es[i].data| + 8 < U64_LIMIT
    requires compress(es[i].data).Some? && RoundTrips(compress, decompress)
    requires |Image(st)| < U64_LIMIT
    ensures |Image(st)| >= HEADER_SIZE && TableInBuffer(Reopened(st))
    ensures FileDataOf(Reopened(st), es[i].name, decompress, wantSize)
         == Ok(FileData(es[i].data + Zeros(8), Reported(es[i].data, wantSize)))
  {
    var j := RecordFound(st, es, compress, i);
    var f := FinalTable(st)[j];
    var data := es[i].data;
    PayloadFound(st, es, compress, i, j);
    assert OutputSize(f) == |data| + 8;
    assert decompress(compress(data).value, OutputSize(f)) == data;
    DataOfRecord(Reopened(st), es[i].name, decompress, wantSize, f, data);
  }

  /** The relocated entry of file i points at its compressed bytes in the image. */
  lemma PayloadFound(st: Staging, es: seq<Entry>, compress: Compressor, i: int, j: int)
    requires Addressable(es) && Stages(st, es, compress) && 0 <= i < |es|
    requires compress(es[i].data).Some? && |Image(st)| < U64_LIMIT
    requires 0 <= j < |st.fileTable| == |SortedTable(st)| && SortedTable(st)[j] == st.fileTable[i]
    ensures |FinalTable(st)| == |st.fileTable|
    ensures InData(FinalTable(st)[j], |Image(st)|)
    ensures PayloadIn(Image(st), FinalTable(st)[j]) == compress(es[i].data).value
    ensures FinalTable(st)[j].fullSize == |es[i].data|
  {
    assert StagedAs(st, i, es[i], compress);
    FinalizeRelocation(st, j);
  }

  /** The headline round trip: build a fresh archive from `es`, finalize it, load the
      image, and ask for file i by name. When the compressor and decompressor are
      inverse and file i compressed, the reader returns the file's bytes followed
      by the 8 zero bytes of slack in its output buffer, and reports its true size. */
  lemma ArchiveRoundTrip(es: seq<Entry>, compress: Compressor, decompress: Decompressor,
                         wantSize: bool, i: int)
    requires Addressable(es) && Fits(es, compress) && 0 <= i < |es|
    requires |es[i].data| + 8 < U64_LIMIT
    requires compress(es[i].data).Some? && RoundTrips(compress, decompress)
    requires |Image(Build(es, compress))| < U64_LIMIT
    ensures |Image(Build(es, compress))| >= HEADER_SIZE && TableInBuffer(Reopened(Build(es, compress)))
    ensures FileDataOf(Reopened(Build(es, compress)), es[i].name, decompress, wantSize)
         == Ok(FileData(es[i].data + Zeros(8), Reported(es[i].data, wantSize)))
  {
    BuildStagesAll(es, compress);
    ReadsBack(Build(es, compress), es, compress, decompress, wantSize, i);
  }
}
