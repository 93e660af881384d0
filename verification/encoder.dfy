/**
 The encoder as the application runs it: one zero-filled array of the
 allocated size, a write index, and a nested loop over rows and columns with
 an eight-bit accumulator that is flushed at every eighth column and at the
 last column of a row. It is proved to return exactly `EscPos.Frame`.
 */
module Encoder {
  import opened Bits
  import opened Raster
  import opened EscPos

  /** Bytes of a row already emitted after the first `x` columns have been scanned. */
  function Flushed(width: nat, x: nat): nat
  {
    if x == width then RowBytes(width) else x / 8
  }

  /** The flush test of the inner loop: the eighth column of a group, or the row's last column. */
  predicate FlushesAt(width: nat, x: nat)
  {
    x % 8 == 7 || x == width - 1
  }

  /** Column `x`'s update of the accumulator: `byte or (1 shl (7 - x % 8))` for an ink pixel. */
  function OrInk(bm: Bitmap, y: nat, x: nat, acc: nat): nat
  {
    if bm.pixel(x, y) == OpaqueBlack then BitOr(acc, Pow2(7 - x % 8)) else acc
  }

  /**
   The accumulator as the inner loop holds it when column `x` is about to be
   scanned: zero at the start of each group of eight columns, then or-ed
   column by column.
   */
  function AccBefore(bm: Bitmap, y: nat, x: nat): nat
  {
    if x % 8 == 0 then 0 else OrInk(bm, y, x - 1, AccBefore(bm, y, x - 1))
  }

  /** The first bits of a group, each shifted to its final place in the byte. */
  function Aligned(bits: seq<bool>): nat
    requires |bits| <= 8
  {
    ToNat(bits) * Pow2(8 - |bits|)
  }

  /**
   One column step, for column `8k + j`: with the accumulator holding the
   first `j` bits of group `k` shifted into place, or-ing in the column's ink
   bit leaves it holding the first `j + 1` bits.
   */
  lemma AccumulateColumn(bm: Bitmap, y: nat, k: nat, j: nat, acc: nat)
    requires j < 8 && 8 * k + j < bm.width
    requires acc == Aligned(GroupBits(bm, y, k)[..j])
    ensures OrInk(bm, y, 8 * k + j, acc) == Aligned(GroupBits(bm, y, k)[..j + 1])
  {
    var g := GroupBits(bm, y, k);
    var p, b := g[..j], g[j];
    assert g[..j + 1] == p + [b];
    assert (8 * k + j) % 8 == j;
    assert b == IsInk(bm.pixel(8 * k + j, y));
    AppendBit(p, b);
    if b {
      assert OrInk(bm, y, 8 * k + j, acc) == BitOr(acc, Pow2(7 - j));
    } else {
      assert OrInk(bm, y, 8 * k + j, acc) == acc;
    }
  }

  /**
   Appending bit `b` to the first `|p|` bits of a group: it lands at position
   `7 - |p|`, which is clear beforehand, so or-ing it in adds it.
   */
  lemma AppendBit(p: seq<bool>, b: bool)
    requires |p| < 8
    ensures (if b then BitOr(Aligned(p), Pow2(7 - |p|)) else Aligned(p)) == Aligned(p + [b])
  {
    var q := p + [b];
    var v, w, n := ToNat(p), ToNat(q), |p|;
    assert q[..n] == p;
    assert w == 2 * v + (if b then 1 else 0);
    assert |q| == n + 1 && 8 - |q| == 7 - n;
    var a := Aligned(p);
    assert a == v * Pow2(8 - n);
    assert Aligned(q) == w * Pow2(7 - n);
    ShiftInBit(v, n, b, w);
    if b {
      assert BitOr(a, Pow2(7 - n)) == Aligned(q);
    } else {
      assert a == Aligned(q);
    }
  }

  /**
   Or-ing bit `7 - j` into a value whose low `8 - j` bits are clear appends
   one binary digit to the value shifted down.
   */
  lemma ShiftInBit(v: nat, j: nat, b: bool, w: nat)
    requires j < 8 && w == 2 * v + (if b then 1 else 0)
    ensures (if b then BitOr(v * Pow2(8 - j), Pow2(7 - j)) else v * Pow2(8 - j)) == w * Pow2(7 - j)
  {
    var q := Pow2(7 - j);
    assert Pow2(8 - j) == 2 * q;
    ShiftIn(v, q);
    if b {
      BitOrSetsClearBit(v, 7 - j);
    }
  }

  lemma ShiftIn(v: int, q: int)
    ensures v * (2 * q) == (2 * v) * q
    ensures v * (2 * q) + q == (2 * v + 1) * q
  {
  }

  /**
   The accumulator before column `8k + j` holds the ink bits of the first `j`
   columns of group `k`, each in its final bit position.
   */
  lemma {:induction false} AccBeforeValue(bm: Bitmap, y: nat, k: nat, j: nat)
    requires j < 8 && 8 * k + j < bm.width
    ensures AccBefore(bm, y, 8 * k + j) == Aligned(GroupBits(bm, y, k)[..j])
  {
    var x := 8 * k + j;
    assert x % 8 == j && x / 8 == k;
    if j == 0 {
      assert GroupBits(bm, y, k)[..0] == [];
    } else {
      var i := j - 1;
      assert AccBefore(bm, y, x) == OrInk(bm, y, 8 * k + i, AccBefore(bm, y, 8 * k + i));
      AccBeforeValue(bm, y, k, i);
      AccumulateColumn(bm, y, k, i, AccBefore(bm, y, 8 * k + i));
      assert i + 1 == j;
    }
  }

  /**
   A flush after column `8k + j`, the eighth of its group or the row's last,
   holds exactly the packed byte of that group: the bits beyond the width
   are clear, so no shift is missing.
   */
  lemma FlushIsPackedByte(bm: Bitmap, y: nat, k: nat, j: nat, acc: nat)
    requires j < 8 && 8 * k + j < bm.width && (j == 7 || 8 * k + j == bm.width - 1)
    requires acc == Aligned(GroupBits(bm, y, k)[..j + 1])
    ensures acc == PackedByte(bm, y, k)
  {
    var g := GroupBits(bm, y, k);
    assert g == g[..j + 1] + g[j + 1..];
    var rest := g[j + 1..];
    forall i | 0 <= i < |rest|
      ensures !rest[i]
    {
      assert rest[i] == g[j + 1 + i];
    }
    ToNatPadded(g[..j + 1], rest);
  }

  /** What the loop writes at a flush is the packed byte of the column's group. */
  lemma FlushEmitsPackedByte(bm: Bitmap, y: nat, x: nat)
    requires x < bm.width && FlushesAt(bm.width, x)
    ensures OrInk(bm, y, x, AccBefore(bm, y, x)) == PackedByte(bm, y, x / 8)
  {
    var k, j := x / 8, x % 8;
    assert x == 8 * k + j;
    AccBeforeValue(bm, y, k, j);
    AccumulateColumn(bm, y, k, j, AccBefore(bm, y, x));
    FlushIsPackedByte(bm, y, k, j, OrInk(bm, y, x, AccBefore(bm, y, x)));
  }

  /** The byte written by a flush at column `x` is byte `x / 8` of the packed row. */
  lemma FlushWritesRowByte(bm: Bitmap, y: nat, x: nat, acc: nat)
    requires x < bm.width && FlushesAt(bm.width, x)
    requires acc == OrInk(bm, y, x, AccBefore(bm, y, x))
    ensures x / 8 < RowBytes(bm.width) && Trunc8(acc) == PackRow(bm, y)[x / 8]
  {
    FlushEmitsPackedByte(bm, y, x);
  }

  /** A flush at column `x` emits the next byte of the row, and the next column starts a group. */
  lemma FlushAdvances(width: nat, x: nat)
    requires x < width && FlushesAt(width, x)
    ensures Flushed(width, x) == x / 8 < RowBytes(width)
    ensures Flushed(width, x + 1) == x / 8 + 1
    ensures x + 1 < width ==> (x + 1) % 8 == 0
  {
  }

  /** Without a flush at column `x`, nothing is emitted and the group goes on. */
  lemma NoFlushStays(width: nat, x: nat)
    requires x < width && !FlushesAt(width, x)
    ensures Flushed(width, x + 1) == Flushed(width, x)
    ensures x + 1 < width && (x + 1) % 8 != 0
  {
  }

  /**
   One column `x` of the inner loop: or the pixel's dot into the accumulator,
   and when the column closes a group of eight or the row, write the
   accumulator at the write index, advance the index and clear the
   accumulator.
   */
  method ScanColumn(bm: Bitmap, y: nat, x: nat, acc: nat, bytes: seq<Byte>, index: nat, ghost start: nat)
    returns (acc': nat, bytes': seq<Byte>, index': nat)
    requires x < bm.width
    requires index == start + Flushed(bm.width, x) && start + RowBytes(bm.width) <= |bytes|
    requires acc == AccBefore(bm, y, x)
    ensures index' == start + Flushed(bm.width, x + 1)
    ensures x + 1 < bm.width ==> acc' == AccBefore(bm, y, x + 1)
    ensures FlushesAt(bm.width, x) ==> index < |bytes| && bytes' == bytes[index := PackRow(bm, y)[x / 8]]
    ensures !FlushesAt(bm.width, x) ==> bytes' == bytes
  {
    acc', bytes', index' := acc, bytes, index;
    if bm.pixel(x, y) == OpaqueBlack {
      acc' := BitOr(acc', Pow2(7 - x % 8));
    }
    if x % 8 == 7 || x == bm.width - 1 {
      FlushWritesRowByte(bm, y, x, acc');
      FlushAdvances(bm.width, x);
      bytes' := bytes'[index' := Trunc8(acc')];
      index' := index' + 1;
      acc' := 0;
    } else {
      NoFlushStays(bm.width, x);
    }
  }

  /**
   The inner loop of the encoder: scans the columns of row `y`, writing each
   packed byte at the write index as soon as its group is complete or the
   row ends. The buffer is passed in and handed back; it ends holding the
   packed row from `start` on, and the write index ends just past it.
   */
  method EmitRow(bm: Bitmap, y: nat, buffer: seq<Byte>, start: nat) returns (bytes: seq<Byte>, index: nat)
    requires start + RowBytes(bm.width) < |buffer|
    requires forall i :: start <= i < |buffer| ==> buffer[i] == 0
    ensures |bytes| == |buffer|
    ensures index == start + RowBytes(bm.width)
    ensures bytes[..index] == buffer[..start] + PackRow(bm, y)
    ensures forall i :: index <= i < |bytes| ==> bytes[i] == 0
  {
    var width := bm.width;
    ghost var row := PackRow(bm, y);
    bytes := buffer;
    index := start;
    var acc: nat := 0;
    var x := 0;
    while x < width
      invariant 0 <= x <= width
      invariant |bytes| == |buffer|
      invariant index == start + Flushed(width, x)
      invariant index <= start + RowBytes(width)
      invariant x < width ==> acc == AccBefore(bm, y, x)
      invariant bytes[..start] == buffer[..start]
      invariant forall i :: start <= i < index ==> bytes[i] == row[i - start]
      invariant forall i :: index <= i < |bytes| ==> bytes[i] == 0
    {
      acc, bytes, index := ScanColumn(bm, y, x, acc, bytes, index, start);
      if FlushesAt(width, x) {
        FlushAdvances(width, x);
      } else {
        NoFlushStays(width, x);
      }
      x := x + 1;
    }
    assert bytes[..index] == buffer[..start] + row;
  }

  /** Row `y` ends before the line feed's slot, so it fits in the allocated buffer. */
  lemma RowFits(width: nat, height: nat, y: nat)
    requires y < height
    ensures 6 + RowStart(width, y) + RowBytes(width) < Capacity(width, height)
  {
    RowStartMono(width, y, height);
    WrittenFitsCapacity(width, height);
  }

  /**
   The six header writes at the start of the zero-filled buffer: ESC, '*',
   0x21, `width / 8`, and the height's low and high byte, each cut to a byte.
   */
  method WriteHeader(buffer: seq<Byte>, width: nat, height: nat) returns (bytes: seq<Byte>, index: nat)
    requires |buffer| > 6
    requires forall i :: 0 <= i < |buffer| ==> buffer[i] == 0
    ensures |bytes| == |buffer| && index == 6
    ensures bytes[0] == 0x1B && bytes[1] == 0x2A && bytes[2] == 0x21
    ensures bytes[3] == (width / 8) % 256 && bytes[4] == height % 256 && bytes[5] == (height / 256) % 256
    ensures forall i :: index <= i < |bytes| ==> bytes[i] == 0
  {
    bytes := buffer;
    index := 0;
    bytes := bytes[index := Trunc8(0x1B)];
    index := index + 1;
    bytes := bytes[index := Trunc8(0x2A)];
    index := index + 1;
    bytes := bytes[index := Trunc8(0x21)];
    index := index + 1;
    bytes := bytes[index := Trunc8(width / 8)];
    index := index + 1;
    bytes := bytes[index := Trunc8(height % 256)];
    index := index + 1;
    bytes := bytes[index := Trunc8(height / 256)];
    index := index + 1;
  }

  /** A buffer holding header, rows and line feed, and zeros after them, is the frame. */
  lemma AssembledFrame(bm: Bitmap, s: seq<Byte>, index: nat)
    requires |s| == Capacity(bm.width, bm.height) && index <= |s|
    requires s[..index] == Header(bm.width, bm.height) + Rows(bm, bm.height) + [LineFeed]
    requires forall i :: index <= i < |s| ==> s[i] == 0
    ensures s == Frame(bm)
  {
    assert s == s[..index] + s[index..];
    assert s[index..] == Zeros(|s| - index);
  }

  /**
   The outer loop of the encoder: rows `0 .. height-1` in order, each packed
   right after the previous one, starting just past the header.
   */
  method EmitRows(bm: Bitmap, buffer: seq<Byte>) returns (bytes: seq<Byte>, index: nat)
    requires |buffer| == Capacity(bm.width, bm.height)
    requires forall i :: 6 <= i < |buffer| ==> buffer[i] == 0
    ensures |bytes| == |buffer|
    ensures index == 6 + RowStart(bm.width, bm.height) && index < |bytes|
    ensures bytes[..index] == buffer[..6] + Rows(bm, bm.height)
    ensures forall i :: index <= i < |bytes| ==> bytes[i] == 0
  {
    var width := bm.width;
    var height := bm.height;
    bytes := buffer;
    index := 6;
    var y := 0;
    while y < height
      invariant 0 <= y <= height
      invariant |bytes| == |buffer|
      invariant index == 6 + RowStart(width, y)
      invariant index < |bytes|
      invariant bytes[..index] == buffer[..6] + Rows(bm, y)
      invariant forall i :: index <= i < |bytes| ==> bytes[i] == 0
    {
      RowFits(width, height, y);
      RowStartNext(width, y);
      bytes, index := EmitRow(bm, y, bytes, index);
      y := y + 1;
    }
  }

  /**
   The stream sent to the printer for a bitmap. The buffer is allocated
   zero-filled at `(width / 8 + 1) * height + 8` bytes; every write stays
   inside it, and the whole buffer is returned whatever was written.
   */
  method BitmapToEscPosCommands(bm: Bitmap) returns (r: seq<Byte>)
    ensures r == Frame(bm)
    ensures |r| == (bm.width / 8 + 1) * bm.height + 8
  {
    var width := bm.width;
    var height := bm.height;
    var bytes, index := WriteHeader(Zeros((width / 8 + 1) * height + 8), width, height);
    assert bytes[..index] == Header(width, height);
    bytes, index := EmitRows(bm, bytes);
    ghost var prefix := bytes[..index];
    bytes := bytes[index := Trunc8(0x0A)];
    index := index + 1;
    assert bytes[..index] == prefix + [LineFeed];
    AssembledFrame(bm, bytes, index);
    r := bytes;
  }
}
