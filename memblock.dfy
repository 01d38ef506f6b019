/** wCopyMemoryBlock (src/wpl/wplUtil.c:23-60): copies an `sw` x `sh` block of
    `size`-byte elements from a source image `sw` elements wide into a destination
    image `dw` elements wide, optionally followed by a one-element border made by
    repeating edge elements. Each `memcpy` is one `Blit` of a byte slice. */
module MemBlock {
  import opened Bytes

  /** The ten integer parameters: source corner and extent, destination corner and
      extent (`dh` is never read), and the element size in bytes. */
  datatype Block = Block(sx: int, sy: int, sw: int, sh: int,
                         dx: int, dy: int, dw: int, dh: int, size: int)

  /** `d` with the bytes at `at..at + |piece|` replaced by `piece`: a `memcpy` whose
      source is read before the destination is written. */
  function Blit(d: seq<u8>, at: int, piece: seq<u8>): (r: seq<u8>)
    requires 0 <= at && at + |piece| <= |d|
    ensures |r| == |d|
    ensures forall p :: 0 <= p < |d| ==> r[p] == if at <= p < at + |piece| then piece[p - at] else d[p]
  {
    seq(|d|, p requires 0 <= p < |d| => if at <= p < at + |piece| then piece[p - at] else d[p])
  }

  predicate InRange(at: int, n: int, len: int) {
    0 <= at && 0 <= n && at + n <= len
  }

  /** Integer multiplication, by repeated addition. Offsets are built from it so
      that facts about them stay linear; `MulIsProduct` ties it to `*`. */
  function Mul(a: int, b: int): int
    decreases if b < 0 then -b else b
  {
    if b == 0 then 0 else if b > 0 then Mul(a, b - 1) + a else Mul(a, b + 1) - a
  }

  lemma {:induction false} MulIsProduct(a: int, b: int)
    ensures Mul(a, b) == a * b
    decreases if b < 0 then -b else b
  {
    if b > 0 {
      MulIsProduct(a, b - 1);
    } else if b < 0 {
      MulIsProduct(a, b + 1);
    }
  }

  /** Byte offset of element (row, col) in an image `w` elements wide: the code's
      `(row * w + col) * size`. */
  function At(row: int, col: int, w: int, size: int): int {
    Mul(Mul(row, w) + col, size)
  }

  /** Number of rows the copy loop runs (`for (i = 0; i < sh; ++i)`). */
  function Rows(g: Block): nat {
    if g.sh < 0 then 0 else g.sh
  }

  /** Bytes in one copied row. */
  function Width(g: Block): int {
    Mul(g.sw, g.size)
  }

  /** Bytes in one border row: `sw + 2` elements. */
  function EdgeWidth(g: Block): int {
    Mul(g.sw + 2, g.size)
  }

  // Where each memcpy of the source writes and reads, by the code's own arithmetic.

  function RowDst(g: Block, i: int): int { At(i + g.dy, g.dx, g.dw, g.size) }
  function RowSrc(g: Block, i: int): int { At(i + g.sy, g.sx, g.sw, g.size) }

  /** The left border element of row i is read from the DESTINATION at the source
      coordinates (row i + sy, column sx) with the destination stride. */
  function LeftDst(g: Block, i: int): int { At(i + g.dy, g.dx - 1, g.dw, g.size) }
  function LeftSrc(g: Block, i: int): int { At(i + g.sy, g.sx, g.dw, g.size) }

  /** The right border element of row i is read from the SOURCE with the destination
      stride `dw`. */
  function RightDst(g: Block, i: int): int { At(i + g.dy, g.dx + g.sw, g.dw, g.size) }
  function RightSrc(g: Block, i: int): int { At(i + g.sy, g.sx + g.sw - 1, g.dw, g.size) }

  function TopDst(g: Block): int { At(g.dy - 1, g.dx - 1, g.dw, g.size) }
  function TopSrc(g: Block): int { At(g.dy, g.dx - 1, g.dw, g.size) }
  function BottomDst(g: Block): int { At(g.dy + g.sh, g.dx - 1, g.dw, g.size) }
  function BottomSrc(g: Block): int { At(g.dy + g.sh - 1, g.dx - 1, g.dw, g.size) }

  /** Every row copy reads and writes inside its buffer (what `memcpy` demands). */
  predicate RowsFit(g: Block, dlen: int, slen: int) {
    forall i :: 0 <= i < Rows(g) ==>
      InRange(RowDst(g, i), Width(g), dlen) && InRange(RowSrc(g, i), Width(g), slen)
  }

  /** Every border copy reads and writes inside its buffer. */
  predicate BorderFits(g: Block, dlen: int, slen: int) {
    (forall i :: 0 <= i < Rows(g) ==>
       InRange(LeftDst(g, i), g.size, dlen) && InRange(LeftSrc(g, i), g.size, dlen)
       && InRange(RightDst(g, i), g.size, dlen) && InRange(RightSrc(g, i), g.size, slen))
    && InRange(TopDst(g), EdgeWidth(g), dlen) && InRange(TopSrc(g), EdgeWidth(g), dlen)
    && InRange(BottomDst(g), EdgeWidth(g), dlen) && InRange(BottomSrc(g), EdgeWidth(g), dlen)
  }

  /** Row i's copy: source row i + sy into destination row i + dy. */
  function RowCopy(d: seq<u8>, s: seq<u8>, g: Block, i: nat): (r: seq<u8>)
    requires RowsFit(g, |d|, |s|) && i < Rows(g)
    ensures |r| == |d|
  {
    Blit(d, RowDst(g, i), s[RowSrc(g, i)..RowSrc(g, i) + Width(g)])
  }

  /** The destination after the first `k` row copies. */
  function CopyRows(d: seq<u8>, s: seq<u8>, g: Block, k: nat): (r: seq<u8>)
    requires RowsFit(g, |d|, |s|) && k <= Rows(g)
    ensures |r| == |d|
  {
    if k == 0 then d else RowCopy(CopyRows(d, s, g, k - 1), s, g, k - 1)
  }

  /** Row i's side borders: the left element, then the right one. */
  function SideRow(d: seq<u8>, s: seq<u8>, g: Block, i: nat): (r: seq<u8>)
    requires BorderFits(g, |d|, |s|) && i < Rows(g)
    ensures |r| == |d|
  {
    var left := Blit(d, LeftDst(g, i), d[LeftSrc(g, i)..LeftSrc(g, i) + g.size]);
    Blit(left, RightDst(g, i), s[RightSrc(g, i)..RightSrc(g, i) + g.size])
  }

  /** The destination after the first `k` rows of side-border copies. */
  function SideColumns(d: seq<u8>, s: seq<u8>, g: Block, k: nat): (r: seq<u8>)
    requires BorderFits(g, |d|, |s|) && k <= Rows(g)
    ensures |r| == |d|
  {
    if k == 0 then d else SideRow(SideColumns(d, s, g, k - 1), s, g, k - 1)
  }

  /** The top border row, then the bottom one, each copied from the row next to it. */
  function TopBottom(d: seq<u8>, g: Block): (r: seq<u8>)
    requires InRange(TopDst(g), EdgeWidth(g), |d|) && InRange(TopSrc(g), EdgeWidth(g), |d|)
    requires InRange(BottomDst(g), EdgeWidth(g), |d|) && InRange(BottomSrc(g), EdgeWidth(g), |d|)
    ensures |r| == |d|
  {
    var top := Blit(d, TopDst(g), d[TopSrc(g)..TopSrc(g) + EdgeWidth(g)]);
    Blit(top, BottomDst(g), top[BottomSrc(g)..BottomSrc(g) + EdgeWidth(g)])
  }

  /** The destination after the whole call; a non-zero `border` adds the border pass. */
  function CopyBlock(d: seq<u8>, s: seq<u8>, g: Block, border: int): (r: seq<u8>)
    requires RowsFit(g, |d|, |s|) && (border != 0 ==> BorderFits(g, |d|, |s|))
    ensures |r| == |d|
  {
    var rows := CopyRows(d, s, g, Rows(g));
    if border == 0 then rows else TopBottom(SideColumns(rows, s, g, Rows(g)), g)
  }

  /** One `memcpy(dest + at, piece, |piece|)`. */
  method MemCopy(dest: array<u8>, at: int, piece: seq<u8>)
    requires 0 <= at && at + |piece| <= dest.Length
    modifies dest
    ensures dest[..] == Blit(old(dest[..]), at, piece)
  {
    forall p | at <= p < at + |piece| {
      dest[p] := piece[p - at];
    }
    assert dest[..] == Blit(old(dest[..]), at, piece) by {
      var want := Blit(old(dest[..]), at, piece);
      forall p | 0 <= p < dest.Length ensures dest[p] == want[p] {
        if at <= p < at + |piece| {
          assert want[at..at + |piece|][p - at] == want[p];
        }
      }
    }
  }

  /** The row loop of wCopyMemoryBlock: one memcpy per source row. */
  method CopyRowsPass(dest: array<u8>, source: array<u8>, g: Block)
    requires dest != source
    requires RowsFit(g, dest.Length, source.Length)
    modifies dest
    ensures dest[..] == CopyRows(old(dest[..]), source[..], g, Rows(g))
  {
    ghost var d0 := dest[..];
    var i := 0;
    while i < g.sh
      invariant 0 <= i <= Rows(g)
      invariant dest[..] == CopyRows(d0, source[..], g, i)
    {
      CopyRow(dest, source, g, i);
      i := i + 1;
    }
  }

  /** The body of the row loop. */
  method CopyRow(dest: array<u8>, source: array<u8>, g: Block, i: nat)
    requires dest != source
    requires RowsFit(g, dest.Length, source.Length) && i < Rows(g)
    modifies dest
    ensures dest[..] == RowCopy(old(dest[..]), source[..], g, i)
  {
    MemCopy(dest, RowDst(g, i), source[RowSrc(g, i)..RowSrc(g, i) + Width(g)]);
  }

  /** The side-border loop. */
  method SideColumnsPass(dest: array<u8>, source: array<u8>, g: Block)
    requires dest != source
    requires BorderFits(g, dest.Length, source.Length)
    modifies dest
    ensures dest[..] == SideColumns(old(dest[..]), source[..], g, Rows(g))
  {
    ghost var d0 := dest[..];
    var i := 0;
    while i < g.sh
      invariant 0 <= i <= Rows(g)
      invariant dest[..] == SideColumns(d0, source[..], g, i)
    {
      SideBorders(dest, source, g, i);
      i := i + 1;
    }
  }

  /** The body of the side-border loop. */
  method SideBorders(dest: array<u8>, source: array<u8>, g: Block, i: nat)
    requires dest != source
    requires BorderFits(g, dest.Length, source.Length) && i < Rows(g)
    modifies dest
    ensures dest[..] == SideRow(old(dest[..]), source[..], g, i)
  {
    MemCopy(dest, LeftDst(g, i), dest[LeftSrc(g, i)..LeftSrc(g, i) + g.size]);
    MemCopy(dest, RightDst(g, i), source[RightSrc(g, i)..RightSrc(g, i) + g.size]);
  }

  /** The top and bottom border rows. */
  method TopBottomPass(dest: array<u8>, g: Block)
    requires InRange(TopDst(g), EdgeWidth(g), dest.Length) && InRange(TopSrc(g), EdgeWidth(g), dest.Length)
    requires InRange(BottomDst(g), EdgeWidth(g), dest.Length) && InRange(BottomSrc(g), EdgeWidth(g), dest.Length)
    modifies dest
    ensures dest[..] == TopBottom(old(dest[..]), g)
  {
    ghost var d0 := dest[..];
    var n := EdgeWidth(g);
    MemCopy(dest, TopDst(g), dest[TopSrc(g)..TopSrc(g) + n]);
    ghost var top := dest[..];
    assert top == Blit(d0, TopDst(g), d0[TopSrc(g)..TopSrc(g) + n]);
    MemCopy(dest, BottomDst(g), dest[BottomSrc(g)..BottomSrc(g) + n]);
    assert dest[..] == Blit(top, BottomDst(g), top[BottomSrc(g)..BottomSrc(g) + n]);
  }

  /** wCopyMemoryBlock, with the source and destination buffers distinct. */
  method CopyMemoryBlock(dest: array<u8>, source: array<u8>, g: Block, border: int)
    requires dest != source
    requires RowsFit(g, dest.Length, source.Length)
    requires border != 0 ==> BorderFits(g, dest.Length, source.Length)
    modifies dest
    ensures dest[..] == CopyBlock(old(dest[..]), source[..], g, border)
  {
    CopyRowsPass(dest, source, g);
    if border != 0 {
      SideColumnsPass(dest, source, g);
      TopBottomPass(dest, g);
    }
  }

  // ------------------------------------------------------------------
  // What the copy achieves

  /** Row i of an image `w` elements wide ends before row j starts, for a run of at
      most `w` elements starting in the same column. */
  lemma RowsApart(row: int, row': int, col: int, w: int, n: int, size: int)
    requires row < row' && 0 <= n <= w && 0 <= size
    ensures At(row, col, w, size) + Mul(n, size) <= At(row', col, w, size)
  {
    var x, x' := row * w + col, row' * w + col;
    MulIsProduct(row, w);
    MulIsProduct(row', w);
    MulIsProduct(x, size);
    MulIsProduct(x', size);
    MulIsProduct(n, size);
    ScaleDifference(row', row, w);
    ScaleMonotone(1, row' - row, w);
    ScaleMonotone(n, x' - x, size);
    ScaleDifference(x', x, size);
  }

  lemma ScaleDifference(a: int, b: int, c: int)
    ensures a * c - b * c == (a - b) * c
  {
  }

  lemma ScaleMonotone(a: int, b: int, c: int)
    requires a <= b && 0 <= c
    ensures a * c <= b * c
  {
    ScaleDifference(b, a, c);
  }

  /** A run that lies wholly before or wholly after a `Blit` is left as it was. */
  lemma BlitKeeps(d: seq<u8>, at: int, piece: seq<u8>, lo: int, n: int)
    requires 0 <= at && at + |piece| <= |d| && 0 <= lo && 0 <= n && lo + n <= |d|
    requires lo + n <= at || at + |piece| <= lo
    ensures Blit(d, at, piece)[lo..lo + n] == d[lo..lo + n]
  {
    var r := Blit(d, at, piece);
    forall p | lo <= p < lo + n ensures r[p] == d[p] { }
  }

  /** A `Blit` leaves its piece where it was written. */
  lemma BlitWrites(d: seq<u8>, at: int, piece: seq<u8>)
    requires 0 <= at && at + |piece| <= |d|
    ensures Blit(d, at, piece)[at..at + |piece|] == piece
  {
    var r := Blit(d, at, piece);
    forall p | at <= p < at + |piece| ensures r[p] == piece[p - at] { }
  }

  /** Without overlap between destination rows (`sw <= dw`), each copied row holds the
      matching source row once the first k rows are done. */
  lemma {:induction false} RowsLandUpTo(d: seq<u8>, s: seq<u8>, g: Block, k: nat)
    requires RowsFit(g, |d|, |s|) && k <= Rows(g)
    requires 0 <= g.sw <= g.dw && 0 <= g.size
    ensures forall i :: 0 <= i < k ==>
      CopyRows(d, s, g, k)[RowDst(g, i)..RowDst(g, i) + Width(g)]
      == s[RowSrc(g, i)..RowSrc(g, i) + Width(g)]
  {
    if k > 0 {
      RowsLandUpTo(d, s, g, k - 1);
      var prev, r := CopyRows(d, s, g, k - 1), CopyRows(d, s, g, k);
      forall i | 0 <= i < k
        ensures r[RowDst(g, i)..RowDst(g, i) + Width(g)] == s[RowSrc(g, i)..RowSrc(g, i) + Width(g)]
      {
        if i < k - 1 {
          RowsApart(i + g.dy, k - 1 + g.dy, g.dx, g.dw, g.sw, g.size);
          BlitKeeps(prev, RowDst(g, k - 1), s[RowSrc(g, k - 1)..RowSrc(g, k - 1) + Width(g)],
                    RowDst(g, i), Width(g));
        }
      }
    }
  }

  /** Without `border` and without overlapping destination rows, every destination
      row i < sh holds source row i. */
  lemma CopiedRows(d: seq<u8>, s: seq<u8>, g: Block, i: int)
    requires RowsFit(g, |d|, |s|) && 0 <= g.sw <= g.dw && 0 <= g.size
    requires 0 <= i < g.sh
    ensures CopyBlock(d, s, g, 0)[RowDst(g, i)..RowDst(g, i) + Width(g)]
            == s[RowSrc(g, i)..RowSrc(g, i) + Width(g)]
  {
    RowsLandUpTo(d, s, g, Rows(g));
  }

  /** The byte at `p` lies in none of the copied destination rows. */
  predicate OutsideRows(g: Block, p: int) {
    forall i :: 0 <= i < Rows(g) ==> !(RowDst(g, i) <= p < RowDst(g, i) + Width(g))
  }

  lemma {:induction false} RowsOnlyUpTo(d: seq<u8>, s: seq<u8>, g: Block, k: nat, p: int)
    requires RowsFit(g, |d|, |s|) && k <= Rows(g)
    requires 0 <= p < |d| && OutsideRows(g, p)
    ensures CopyRows(d, s, g, k)[p] == d[p]
  {
    if k > 0 {
      RowsOnlyUpTo(d, s, g, k - 1, p);
      assert !(RowDst(g, k - 1) <= p < RowDst(g, k - 1) + Width(g));
    }
  }

  /** Without `border`, no destination byte outside the copied rows changes. */
  lemma UntouchedOutsideRows(d: seq<u8>, s: seq<u8>, g: Block, p: int)
    requires RowsFit(g, |d|, |s|)
    requires 0 <= p < |d| && OutsideRows(g, p)
    ensures CopyBlock(d, s, g, 0)[p] == d[p]
  {
    RowsOnlyUpTo(d, s, g, Rows(g), p);
  }

  /** With `border`, for a block of at least one row and destination rows wide enough
      for the border (`sw + 2 <= dw`): the row above the block repeats the block's
      first row and the row below repeats its last row, over `sw + 2` elements from
      column dx - 1. */
  lemma BorderRows(d: seq<u8>, s: seq<u8>, g: Block)
    requires RowsFit(g, |d|, |s|) && BorderFits(g, |d|, |s|)
    requires 1 <= g.sh && 0 <= g.sw + 2 <= g.dw && 0 <= g.size
    ensures var r := CopyBlock(d, s, g, 1);
      r[TopDst(g)..TopDst(g) + EdgeWidth(g)] == r[TopSrc(g)..TopSrc(g) + EdgeWidth(g)]
      && r[BottomDst(g)..BottomDst(g) + EdgeWidth(g)] == r[BottomSrc(g)..BottomSrc(g) + EdgeWidth(g)]
  {
    TopBottomRepeats(SideColumns(CopyRows(d, s, g, Rows(g)), s, g, Rows(g)), g);
  }

  /** The border-row pass alone: afterwards each border row equals its neighbour. */
  lemma TopBottomRepeats(sides: seq<u8>, g: Block)
    requires InRange(TopDst(g), EdgeWidth(g), |sides|) && InRange(TopSrc(g), EdgeWidth(g), |sides|)
    requires InRange(BottomDst(g), EdgeWidth(g), |sides|) && InRange(BottomSrc(g), EdgeWidth(g), |sides|)
    requires 1 <= g.sh && 0 <= g.sw + 2 <= g.dw && 0 <= g.size
    ensures var r := TopBottom(sides, g);
      r[TopDst(g)..TopDst(g) + EdgeWidth(g)] == r[TopSrc(g)..TopSrc(g) + EdgeWidth(g)]
      && r[BottomDst(g)..BottomDst(g) + EdgeWidth(g)] == r[BottomSrc(g)..BottomSrc(g) + EdgeWidth(g)]
  {
    BorderRowsApart(g);
    var t, ts, b, bs := TopDst(g), TopSrc(g), BottomDst(g), BottomSrc(g);
    RepeatTwice(sides, t, ts, b, bs, EdgeWidth(g));
  }

  /** For `sw + 2 <= dw`, the rows at dy - 1, dy, dy + sh - 1 and dy + sh, each
      `sw + 2` elements from column dx - 1, come in that order without overlap,
      except that the middle two coincide when sh = 1. */
  lemma BorderRowsApart(g: Block)
    requires 1 <= g.sh && 0 <= g.sw + 2 <= g.dw && 0 <= g.size
    ensures TopDst(g) + EdgeWidth(g) <= TopSrc(g) <= BottomSrc(g)
    ensures BottomSrc(g) + EdgeWidth(g) <= BottomDst(g)
  {
    RowsApart(g.dy - 1, g.dy, g.dx - 1, g.dw, g.sw + 2, g.size);
    RowsApart(g.dy + g.sh - 1, g.dy + g.sh, g.dx - 1, g.dw, g.sw + 2, g.size);
    if g.sh > 1 {
      RowsApart(g.dy, g.dy + g.sh - 1, g.dx - 1, g.dw, g.sw + 2, g.size);
      MulIsProduct(g.sw + 2, g.size);
    } else {
      assert g.dy + g.sh - 1 == g.dy;
    }
  }

  /** Copying the run at `ts` to `t` below it, then the run at `bs` to `b` after it,
      leaves each destination run equal to its source run. */
  lemma RepeatTwice(d: seq<u8>, t: int, ts: int, b: int, bs: int, n: int)
    requires 0 <= t && t + n <= ts <= bs && bs + n <= b && b + n <= |d| && 0 <= n
    ensures var top := Blit(d, t, d[ts..ts + n]);
      var r := Blit(top, b, top[bs..bs + n]);
      r[t..t + n] == r[ts..ts + n] && r[b..b + n] == r[bs..bs + n]
  {
    var top := Blit(d, t, d[ts..ts + n]);
    var r := Blit(top, b, top[bs..bs + n]);
    BlitWrites(d, t, d[ts..ts + n]);
    BlitKeeps(d, t, d[ts..ts + n], ts, n);
    BlitWrites(top, b, top[bs..bs + n]);
    BlitKeeps(top, b, top[bs..bs + n], t, n);
    BlitKeeps(top, b, top[bs..bs + n], ts, n);
    BlitKeeps(top, b, top[bs..bs + n], bs, n);
  }
}
