/**
 The byte stream the application sends to the printer, defined directly:
 a six-byte header, the rows bit-packed eight pixels per byte (leftmost pixel
 in the most significant bit), a line feed, and zero padding up to the size
 of the buffer the encoder allocates. This is the reference the encoder in
 module `Encoder` is proved to produce.
 */
module EscPos {
  import opened Bits
  import opened Raster

  const Esc: Byte := 0x1B
  const Star: Byte := 0x2A
  const Mode: Byte := 0x21
  const LineFeed: Byte := 0x0A

  /** Bytes one row actually carries: one per started group of eight columns. */
  function RowBytes(width: nat): nat
  {
    (width + 7) / 8
  }

  /** Bytes taken by the first `y` rows. */
  function RowStart(width: nat, y: nat): nat
  {
    y * RowBytes(width)
  }

  lemma RowStartNext(width: nat, y: nat)
    ensures RowStart(width, y + 1) == RowStart(width, y) + RowBytes(width)
  {
  }

  lemma RowStartMono(width: nat, y: nat, n: nat)
    requires y < n
    ensures RowStart(width, y) + RowBytes(width) <= RowStart(width, n)
  {
    RowStartNext(width, y);
    MulLeq(y + 1, n, RowBytes(width));
  }

  /** Size of the buffer the encoder allocates, and so of the stream it returns. */
  function Capacity(width: nat, height: nat): nat
  {
    (width / 8 + 1) * height + 8
  }

  /** Bytes the encoder writes: header, packed rows, line feed. */
  function Written(width: nat, height: nat): nat
  {
    6 + RowStart(width, height) + 1
  }

  /**
   The header: ESC '*' 0x21, then `width / 8`, then the height as a low and a
   high byte, each cut to eight bits.
   */
  function Header(width: nat, height: nat): (h: seq<Byte>)
    ensures |h| == 6
  {
    [Esc, Star, Mode, Trunc8(width / 8), Trunc8(height % 256), Trunc8(height / 256)]
  }

  /**
   The ink map of the eight columns `8k .. 8k+7` of row `y`, left to right;
   columns at or beyond the width read as no ink.
   */
  function GroupBits(bm: Bitmap, y: nat, k: nat): (g: seq<bool>)
    ensures |g| == 8
  {
    seq(8, j requires 0 <= j < 8 => 8 * k + j < bm.width && IsInk(bm.pixel(8 * k + j, y)))
  }

  /** Byte `k` of row `y`: its group's ink map read as a binary number, leftmost bit first. */
  function PackedByte(bm: Bitmap, y: nat, k: nat): Byte
  {
    ToNat(GroupBits(bm, y, k))
  }

  /** Row `y`, packed. */
  function PackRow(bm: Bitmap, y: nat): (row: seq<Byte>)
    ensures |row| == RowBytes(bm.width)
  {
    seq(RowBytes(bm.width), k requires 0 <= k < RowBytes(bm.width) => PackedByte(bm, y, k))
  }

  /** Rows `0 .. n-1`, packed, in order. */
  function Rows(bm: Bitmap, n: nat): (rs: seq<Byte>)
    ensures |rs| == RowStart(bm.width, n)
  {
    if n == 0 then []
    else
      RowStartNext(bm.width, n - 1);
      Rows(bm, n - 1) + PackRow(bm, n - 1)
  }

  function Zeros(n: nat): (z: seq<Byte>)
    ensures |z| == n
  {
    seq(n, _ => 0)
  }

  /** How much of the buffer is left over after the line feed. */
  lemma Slack(width: nat, height: nat)
    ensures Capacity(width, height) - Written(width, height)
            == if width % 8 == 0 then height + 1 else 1
  {
    if width % 8 == 0 {
      assert RowBytes(width) == width / 8;
    } else {
      assert RowBytes(width) == width / 8 + 1;
    }
  }

  /**
   Whatever the width and height, everything the encoder writes fits in the
   buffer it allocates: no index ever reaches the end of the array.
   */
  lemma WrittenFitsCapacity(width: nat, height: nat)
    ensures Written(width, height) < Capacity(width, height)
  {
    Slack(width, height);
  }

  /** The complete stream: header, rows, line feed, then zeros to the allocated size. */
  function Frame(bm: Bitmap): (f: seq<Byte>)
    ensures |f| == Capacity(bm.width, bm.height)
  {
    Slack(bm.width, bm.height);
    Header(bm.width, bm.height) + Rows(bm, bm.height) + Tail(bm.width, bm.height)
  }

  /** What follows the rows: the line feed, then zeros up to the allocated size. */
  function Tail(width: nat, height: nat): (t: seq<Byte>)
    requires Written(width, height) <= Capacity(width, height)
    ensures |t| == Capacity(width, height) - Written(width, height) + 1
  {
    [LineFeed] + Zeros(Capacity(width, height) - Written(width, height))
  }

  /** Offset in the stream of byte `k` of row `y`. */
  function Offset(width: nat, y: nat, k: nat): nat
  {
    6 + RowStart(width, y) + k
  }

  /** The header fields, with `toByte()`'s truncation of each to one byte. */
  lemma FrameHeader(bm: Bitmap)
    ensures var f := Frame(bm);
            && f[0] == 0x1B && f[1] == 0x2A && f[2] == 0x21
            && f[3] == (bm.width / 8) % 256
            && f[4] == bm.height % 256
            && f[5] == (bm.height / 256) % 256
  {
  }

  /**
   The width field is the row length a reader must use, but it only equals
   the bytes each row carries when the width is a multiple of 8 (for widths
   whose field does not wrap around).
   */
  lemma HeaderWidthMatchesRowsIffMultipleOf8(bm: Bitmap)
    requires bm.width < 2048
    ensures Frame(bm)[3] == RowBytes(bm.width) <==> bm.width % 8 == 0
  {
    FrameHeader(bm);
  }

  lemma {:induction false} RowsIndex(bm: Bitmap, n: nat, y: nat, k: nat)
    requires y < n && k < RowBytes(bm.width)
    ensures RowStart(bm.width, y) + k < |Rows(bm, n)|
    ensures Rows(bm, n)[RowStart(bm.width, y) + k] == PackedByte(bm, y, k)
  {
    RowStartMono(bm.width, y, n);
    if y < n - 1 {
      RowsIndex(bm, n - 1, y, k);
    } else {
      assert Rows(bm, n) == Rows(bm, n - 1) + PackRow(bm, n - 1);
    }
  }

  lemma MulLeq(a: nat, b: nat, c: nat)
    requires a <= b
    ensures a * c <= b * c
  {
  }

  /**
   Rows appear in order `y = 0 .. height-1`, each `RowBytes(width)` long,
   right after the header: byte `k` of row `y` sits at offset
   `6 + y * RowBytes(width) + k`.
   */
  lemma {:induction false} RowPlacement(bm: Bitmap, y: nat, k: nat)
    requires y < bm.height && k < RowBytes(bm.width)
    ensures Offset(bm.width, y, k) < |Frame(bm)|
    ensures Frame(bm)[Offset(bm.width, y, k)] == PackedByte(bm, y, k)
  {
    var hd, rows := Header(bm.width, bm.height), Rows(bm, bm.height);
    WrittenFitsCapacity(bm.width, bm.height);
    var tl := Tail(bm.width, bm.height);
    assert Frame(bm) == hd + rows + tl;
    RowsIndex(bm, bm.height, y, k);
    MiddleIndex(hd, rows, tl, RowStart(bm.width, y) + k);
  }

  lemma MiddleIndex<T>(a: seq<T>, b: seq<T>, c: seq<T>, i: nat)
    requires i < |b|
    ensures (a + b + c)[|a| + i] == b[i]
  {
  }

  /** The bytes of row `y` as they sit in a stream of the given width. */
  function FrameRow(f: seq<Byte>, width: nat, y: nat): (row: seq<Byte>)
    requires Offset(width, y, RowBytes(width)) <= |f|
    ensures |row| == RowBytes(width)
  {
    f[Offset(width, y, 0)..Offset(width, y, RowBytes(width))]
  }

  /** Reads the ink map back from a packed row: pixel `x` is bit `7 - x % 8` of byte `x / 8`. */
  function UnpackRow(row: seq<Byte>, width: nat): (ink: seq<bool>)
    requires RowBytes(width) <= |row|
    ensures |ink| == width
  {
    seq(width, x requires 0 <= x < width => TestBit(row[x / 8], 7 - x % 8))
  }

  /** The ink map of row `y` of the image. */
  function InkRow(bm: Bitmap, y: nat): (ink: seq<bool>)
    ensures |ink| == bm.width
  {
    seq(bm.width, x requires 0 <= x < bm.width => IsInk(bm.pixel(x, y)))
  }

  /** A packed byte's bit `7 - j` is position `j` of its group's ink map. */
  lemma PackedBit(bm: Bitmap, y: nat, k: nat, j: nat)
    requires j < 8
    ensures TestBit(PackedByte(bm, y, k), 7 - j) == GroupBits(bm, y, k)[j]
  {
    var g := GroupBits(bm, y, k);
    UnpackPack(g);
    BitsAgreeWithTestBit(ToNat(g), 8, j);
  }

  /**
   Bit packing: in the stream, bit `7 - x % 8` of row `y`'s byte `x / 8` is
   set exactly when pixel `(x, y)` is opaque black.
   */
  lemma InkBitPlacement(bm: Bitmap, x: nat, y: nat)
    requires x < bm.width && y < bm.height
    ensures Offset(bm.width, y, x / 8) < |Frame(bm)|
    ensures TestBit(Frame(bm)[Offset(bm.width, y, x / 8)], 7 - x % 8) <==> IsInk(bm.pixel(x, y))
  {
    var k, j := x / 8, x % 8;
    assert 8 * k + j == x;
    RowPlacement(bm, y, k);
    PackedBit(bm, y, k, j);
  }

  /** The stream's rows read back one at a time: row `y` of the stream is `PackRow(bm, y)`. */
  lemma FrameRowIsPackRow(bm: Bitmap, y: nat)
    requires y < bm.height
    ensures Offset(bm.width, y, RowBytes(bm.width)) <= |Frame(bm)|
    ensures FrameRow(Frame(bm), bm.width, y) == PackRow(bm, y)
  {
    var r := RowBytes(bm.width);
    var f := Frame(bm);
    RowStartMono(bm.width, y, bm.height);
    WrittenFitsCapacity(bm.width, bm.height);
    var row := FrameRow(f, bm.width, y);
    forall k | 0 <= k < r
      ensures row[k] == PackRow(bm, y)[k]
    {
      RowPlacement(bm, y, k);
    }
  }


  /**
   Round trip: unpacking any row of the stream reproduces the image's ink map
   for every column `x < width`.
   */
  lemma UnpackFrameRow(bm: Bitmap, y: nat)
    requires y < bm.height
    ensures Offset(bm.width, y, RowBytes(bm.width)) <= |Frame(bm)|
    ensures UnpackRow(FrameRow(Frame(bm), bm.width, y), bm.width) == InkRow(bm, y)
  {
    FrameRowIsPackRow(bm, y);
    forall x | 0 <= x < bm.width
      ensures UnpackRow(PackRow(bm, y), bm.width)[x] == InkRow(bm, y)[x]
    {
      var k, j := x / 8, x % 8;
      assert 8 * k + j == x;
      PackedBit(bm, y, k, j);
      assert GroupBits(bm, y, k)[j] == IsInk(bm.pixel(x, y));
    }
  }

  /**
   No padding bits: when the width is not a multiple of 8, the bits of each
   row's last byte beyond column `width - 1` are clear.
   */
  lemma PaddingBitsClear(bm: Bitmap, y: nat, j: nat)
    requires y < bm.height && bm.width % 8 != 0
    requires bm.width % 8 <= j < 8
    ensures Offset(bm.width, y, bm.width / 8) < |Frame(bm)|
    ensures !TestBit(Frame(bm)[Offset(bm.width, y, bm.width / 8)], 7 - j)
  {
    RowPlacement(bm, y, bm.width / 8);
    PackedBit(bm, y, bm.width / 8, j);
  }

  /**
   No bits leak between bytes or rows: byte `k` of row `y` depends on nothing
   but the pixels of columns `8k .. 8k+7` of that row.
   */
  lemma PackedByteIsLocal(bm1: Bitmap, bm2: Bitmap, y: nat, k: nat)
    requires bm1.width == bm2.width
    requires forall x :: 8 * k <= x < 8 * k + 8 && x < bm1.width ==> bm1.pixel(x, y) == bm2.pixel(x, y)
    ensures PackedByte(bm1, y, k) == PackedByte(bm2, y, k)
  {
    assert GroupBits(bm1, y, k) == GroupBits(bm2, y, k);
  }

  /**
   The tail: the line feed sits right after the last row and every byte after
   it is zero; there is one such zero when the width is not a multiple of 8
   and `height + 1` of them when it is.
   */
  lemma FrameTail(bm: Bitmap)
    ensures var lf := Offset(bm.width, bm.height, 0);
            && lf < |Frame(bm)|
            && Frame(bm)[lf] == 0x0A
            && (forall i :: lf < i < |Frame(bm)| ==> Frame(bm)[i] == 0)
            && |Frame(bm)| - (lf + 1) == if bm.width % 8 == 0 then bm.height + 1 else 1
  {
    Slack(bm.width, bm.height);
  }

  /** An empty image gives the header, the line feed and zeros only. */
  lemma DegenerateFrame(bm: Bitmap)
    requires bm.width == 0 || bm.height == 0
    ensures Frame(bm) == Header(bm.width, bm.height) + [0x0A]
                         + Zeros(Capacity(bm.width, bm.height) - 7)
  {
    assert RowBytes(bm.width) * bm.height == 0;
    assert Rows(bm, bm.height) == [];
  }
}
