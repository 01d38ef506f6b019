/** The s-archive records of src/wpl/wpl.h:121-170 (repeated in src/sartool/sar.c:32-79)
    and their on-disk bytes. Every record is declared under `#pragma pack(push, 4)` and
    all its fields are 4- or 8-byte integers or byte arrays whose sizes keep the next
    field aligned, so a record is its fields' little-endian bytes written back to back. */
module SarFormat {
  import opened Bytes

  const MAGIC: u32 := 0x77536172
  const VERSION: u32 := 101
  const NAME_LEN: nat := 55

  const ID_SIZE: nat := 64
  const FILE_SIZE: nat := 96
  const HEADER_SIZE: nat := 128

  type Name = s: seq<u8> | |s| == NAME_LEN witness Zeros(NAME_LEN)

  type Unused = s: seq<u64> | |s| == 3 witness [0, 0, 0]

  /** wSarId: the hash, the name buffer and the separate `zero` byte after it. */
  datatype SarId = SarId(hash: u64, name: Name, zero: u8)

  /** wSarFile: one entry of the file table. */
  datatype SarFile = SarFile(
    id: SarId, kind: u32, version: u32,
    compressedSize: u64, fullSize: u64, location: u64)

  /** wSarHeader: the first 128 bytes of an archive. */
  datatype SarHeader = SarHeader(
    magic: u32, version: u32, unused: Unused, id: SarId,
    archiveSize: u64, fileCount: u64, fileTableLocation: u64, descriptionLength: u64)

  const ZERO_ID: SarId := SarId(0, Zeros(NAME_LEN), 0)

  /** The header of a zeroed allocation. */
  const ZERO_HEADER: SarHeader := SarHeader(0, 0, [0, 0, 0], ZERO_ID, 0, 0, 0, 0)

  function EncodeId(id: SarId): (r: seq<u8>)
    ensures |r| == ID_SIZE
  {
    EncodeU64(id.hash) + id.name + [id.zero]
  }

  function DecodeId(b: seq<u8>): (r: SarId)
    requires |b| == ID_SIZE
  {
    SarId(DecodeU64(b[..8]), b[8..63], b[63])
  }

  function EncodeFile(f: SarFile): (r: seq<u8>)
    ensures |r| == FILE_SIZE
  {
    EncodeId(f.id) + EncodeU32(f.kind) + EncodeU32(f.version)
      + EncodeU64(f.compressedSize) + EncodeU64(f.fullSize) + EncodeU64(f.location)
  }

  function DecodeFile(b: seq<u8>): (r: SarFile)
    requires |b| == FILE_SIZE
  {
    SarFile(DecodeId(b[..64]), DecodeU32(b[64..68]), DecodeU32(b[68..72]),
            DecodeU64(b[72..80]), DecodeU64(b[80..88]), DecodeU64(b[88..96]))
  }

  function EncodeHeader(h: SarHeader): (r: seq<u8>)
    ensures |r| == HEADER_SIZE
  {
    EncodeU32(h.magic) + EncodeU32(h.version)
      + EncodeU64(h.unused[0]) + EncodeU64(h.unused[1]) + EncodeU64(h.unused[2])
      + EncodeId(h.id)
      + EncodeU64(h.archiveSize) + EncodeU64(h.fileCount)
      + EncodeU64(h.fileTableLocation) + EncodeU64(h.descriptionLength)
  }

  function DecodeHeader(b: seq<u8>): (r: SarHeader)
    requires |b| == HEADER_SIZE
  {
    SarHeader(DecodeU32(b[..4]), DecodeU32(b[4..8]),
              [DecodeU64(b[8..16]), DecodeU64(b[16..24]), DecodeU64(b[24..32])],
              DecodeId(b[32..96]),
              DecodeU64(b[96..104]), DecodeU64(b[104..112]),
              DecodeU64(b[112..120]), DecodeU64(b[120..128]))
  }

  /** The magic is stored as the bytes "raSw": the multi-character constant 'wSar'
      written little-endian. */
  lemma MagicBytes()
    ensures EncodeU32(MAGIC) == Ascii("raSw")
  {
    assert EncodeU32(MAGIC) == [0x72, 0x61, 0x53, 0x77];
  }

  lemma {:induction false} EncodeDecodeLE(b: seq<u8>)
    ensures EncodeLE(DecodeLE(b), |b|) == b
  {
    if |b| > 0 {
      EncodeDecodeLE(b[1..]);
      assert DecodeLE(b) / 0x100 == DecodeLE(b[1..]);
    }
  }

  lemma EncodeDecodeU32(b: seq<u8>)
    requires |b| == 4
    ensures EncodeU32(DecodeU32(b)) == b
  {
    EncodeDecodeLE(b);
  }

  lemma EncodeDecodeU64(b: seq<u8>)
    requires |b| == 8
    ensures EncodeU64(DecodeU64(b)) == b
  {
    EncodeDecodeLE(b);
  }

  lemma IdRoundTrip(id: SarId)
    ensures DecodeId(EncodeId(id)) == id
  {
    var b := EncodeId(id);
    assert b[..8] == EncodeU64(id.hash);
    assert b[8..63] == id.name;
    DecodeEncodeU64(id.hash);
  }

  /** Every 64 bytes are the image of exactly one identifier. */
  lemma IdBytesRoundTrip(b: seq<u8>)
    requires |b| == ID_SIZE
    ensures EncodeId(DecodeId(b)) == b
  {
    EncodeDecodeU64(b[..8]);
    assert b == b[..8] + b[8..63] + [b[63]];
  }

  lemma FileRoundTrip(f: SarFile)
    ensures DecodeFile(EncodeFile(f)) == f
  {
    var b := EncodeFile(f);
    assert b[..64] == EncodeId(f.id);
    assert b[64..68] == EncodeU32(f.kind);
    assert b[68..72] == EncodeU32(f.version);
    assert b[72..80] == EncodeU64(f.compressedSize);
    assert b[80..88] == EncodeU64(f.fullSize);
    assert b[88..96] == EncodeU64(f.location);
    IdRoundTrip(f.id);
    DecodeEncodeU32(f.kind);
    DecodeEncodeU32(f.version);
    DecodeEncodeU64(f.compressedSize);
    DecodeEncodeU64(f.fullSize);
    DecodeEncodeU64(f.location);
  }

  /** Every 96 bytes are the image of exactly one file entry. */
  lemma FileBytesRoundTrip(b: seq<u8>)
    requires |b| == FILE_SIZE
    ensures EncodeFile(DecodeFile(b)) == b
  {
    IdBytesRoundTrip(b[..64]);
    EncodeDecodeU32(b[64..68]);
    EncodeDecodeU32(b[68..72]);
    EncodeDecodeU64(b[72..80]);
    EncodeDecodeU64(b[80..88]);
    EncodeDecodeU64(b[88..96]);
    assert b == b[..64] + b[64..68] + b[68..72] + b[72..80] + b[80..88] + b[88..96];
  }

  lemma HeaderRoundTrip(h: SarHeader)
    ensures DecodeHeader(EncodeHeader(h)) == h
  {
    var b := EncodeHeader(h);
    assert b[..4] == EncodeU32(h.magic);
    assert b[4..8] == EncodeU32(h.version);
    assert b[8..16] == EncodeU64(h.unused[0]);
    assert b[16..24] == EncodeU64(h.unused[1]);
    assert b[24..32] == EncodeU64(h.unused[2]);
    assert b[32..96] == EncodeId(h.id);
    assert b[96..104] == EncodeU64(h.archiveSize);
    assert b[104..112] == EncodeU64(h.fileCount);
    assert b[112..120] == EncodeU64(h.fileTableLocation);
    assert b[120..128] == EncodeU64(h.descriptionLength);
    DecodeEncodeU32(h.magic);
    DecodeEncodeU32(h.version);
    DecodeEncodeU64(h.unused[0]);
    DecodeEncodeU64(h.unused[1]);
    DecodeEncodeU64(h.unused[2]);
    IdRoundTrip(h.id);
    DecodeEncodeU64(h.archiveSize);
    DecodeEncodeU64(h.fileCount);
    DecodeEncodeU64(h.fileTableLocation);
    DecodeEncodeU64(h.descriptionLength);
  }

  /** The hash is the first 8 bytes of an entry, so a search can read it in place. */
  lemma FileHashBytes(b: seq<u8>)
    requires |b| == FILE_SIZE
    ensures DecodeFile(b).id.hash == DecodeU64(b[..8])
  {
    assert b[..64][..8] == b[..8];
  }

  /** A file table: the entries' records back to back. */
  function EncodeTable(fs: seq<SarFile>): (r: seq<u8>)
    ensures |r| == FILE_SIZE * |fs|
  {
    if |fs| == 0 then [] else EncodeTable(fs[..|fs| - 1]) + EncodeFile(fs[|fs| - 1])
  }

  /** Entry k of a table occupies bytes [96k, 96k + 96). */
  lemma {:induction false} TableAt(fs: seq<SarFile>, k: int)
    requires 0 <= k < |fs|
    ensures EncodeTable(fs)[FILE_SIZE * k..FILE_SIZE * k + FILE_SIZE] == EncodeFile(fs[k])
  {
    var init := fs[..|fs| - 1];
    if k < |fs| - 1 {
      TableAt(init, k);
      assert fs[k] == init[k];
    }
  }

  /** Reading entry k out of a table gives back the entry that was written. */
  lemma TableRoundTrip(fs: seq<SarFile>, k: int)
    requires 0 <= k < |fs|
    ensures DecodeFile(EncodeTable(fs)[FILE_SIZE * k..FILE_SIZE * k + FILE_SIZE]) == fs[k]
  {
    TableAt(fs, k);
    FileRoundTrip(fs[k]);
  }

  /** A table written between `pre` and `post` is read back entry by entry at
      `|pre| + 96k`. */
  lemma TableIn(pre: seq<u8>, fs: seq<SarFile>, post: seq<u8>, k: int)
    requires 0 <= k < |fs|
    ensures |pre| + FILE_SIZE * k + FILE_SIZE <= |pre + EncodeTable(fs) + post|
    ensures DecodeFile((pre + EncodeTable(fs) + post)[|pre| + FILE_SIZE * k..|pre| + FILE_SIZE * k + FILE_SIZE])
            == fs[k]
  {
    RecordInTable(k, |fs|);
    InMiddle(pre, EncodeTable(fs), post, FILE_SIZE * k, FILE_SIZE);
    TableRoundTrip(fs, k);
    var record := (pre + EncodeTable(fs) + post)[|pre| + FILE_SIZE * k..|pre| + FILE_SIZE * k + FILE_SIZE];
    var written := EncodeTable(fs)[FILE_SIZE * k..FILE_SIZE * k + FILE_SIZE];
    assert record == written;
    assert DecodeFile(written) == fs[k];
  }

  /** A piece of the middle part of `pre + t + post`, read in place. */
  lemma InMiddle<T>(pre: seq<T>, t: seq<T>, post: seq<T>, at: int, n: int)
    requires 0 <= at && 0 <= n && at + n <= |t|
    ensures (pre + t + post)[|pre| + at..|pre| + at + n] == t[at..at + n]
  {
    var s := pre + t + post;
    var piece, want := s[|pre| + at..|pre| + at + n], t[at..at + n];
    forall i | 0 <= i < n ensures piece[i] == want[i] {
      assert s[|pre| + at + i] == t[at + i];
    }
    assert piece == want;
  }

  /** Record k of an n-entry table ends within the table. */
  lemma RecordInTable(k: int, n: int)
    requires 0 <= k < n
    ensures 0 <= FILE_SIZE * k && FILE_SIZE * k + FILE_SIZE <= FILE_SIZE * n
  {
    assert FILE_SIZE * k + FILE_SIZE == FILE_SIZE * (k + 1);
  }
}
