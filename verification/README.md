# QR printer image encoder, modelled in Dafny

The application picks an image, decodes it to an Android `Bitmap` and sends
a byte stream to a Bluetooth receipt printer. This project models the part
that turns the bitmap into that byte stream, `bitmapToEscPosCommands`.
Its layout:

- a six-byte header: `1B 2A 21`, then the width in bytes (`width / 8`), then
  the height's low byte and high byte;
- the rows, top to bottom. Each row is packed eight pixels per byte, leftmost
  pixel in the most significant bit. A pixel becomes a dot exactly when its
  colour is opaque black `0xFF000000`;
- a line feed `0A`;
- zeros up to the size of the array allocated at the start,
  `(width / 8 + 1) * height + 8`. The whole array is returned.

The layout is the application's own. It is not the column-oriented bit-image
command of the Epson ESC/POS reference, and the model does not judge it
against that reference.

Files:

- `bits.dfy` (module `Bits`): bytes as values 0..255, Kotlin's `toByte()`,
  `or`, `1 shl n`, and packing and unpacking of most-significant-first bit
  lists.
- `raster.dfy` (module `Raster`): the bitmap as width, height and a pixel
  function returning a signed 32-bit colour, plus the ink test.
- `escpos.dfy` (module `EscPos`): the reference definition of the stream,
  `Frame`, and the layout properties proved about it.
- `encoder.dfy` (module `Encoder`): the encoder's loops over an explicit
  buffer and write index, proved to return exactly `Frame`.
- `examples_frames.dfy` (module `Examples`): complete streams for two small
  images.

Three points of the layout that are easy to misread:

- Width byte of the header. The code writes `width / 8` (MainActivity.kt
  line 199). Only the allocation at line 191 uses `width / 8 + 1`. The lemma
  `EscPos.HeaderWidthMatchesRowsIffMultipleOf8` states when the width byte
  equals the number of bytes a row actually carries: exactly when the width
  is a multiple of 8.
- Write index. The index moves once per emitted byte, so rows sit
  `ceil(width / 8)` bytes apart with no gaps.
- Output length. The whole allocated array is returned (line 218), so the
  length is always `(width / 8 + 1) * height + 8`, whatever was written.

## Model

| member | source | states |
|---|---|---|
| Encoder.BitmapToEscPosCommands | app/src/main/java/com/example/qrprinter/MainActivity.kt:188-219 | The returned array is exactly `Frame`: header, packed rows, line feed, zero padding. Its length is the allocated `(width / 8 + 1) * height + 8` for every width and height, including the empty image. |
| Encoder.WriteHeader | app/src/main/java/com/example/qrprinter/MainActivity.kt:193-201 | The six header writes leave `1B 2A 21`, then `width / 8`, `height % 256` and `height / 256`, each cut to a byte. The write index ends at 6 and the rest of the buffer stays zero. |
| Encoder.EmitRows | app/src/main/java/com/example/qrprinter/MainActivity.kt:203-214 | The outer loop writes rows `0 .. height-1` in order, right after the header. The index ends at `6 + height * ceil(width / 8)`, still inside the array, and everything after it is zero. |
| Encoder.EmitRow | app/src/main/java/com/example/qrprinter/MainActivity.kt:204-213 | One row's inner loop writes exactly `ceil(width / 8)` bytes, the row's packed groups, from the current index on. It leaves the bytes before the index unchanged. |
| Encoder.ScanColumn | app/src/main/java/com/example/qrprinter/MainActivity.kt:206-212 | One column step ors in the dot. At every eighth column and at the row's last column it writes the group's packed byte at the index, advances the index by one and clears the accumulator. Otherwise the buffer is untouched. |
| Encoder.AccBeforeValue | app/src/main/java/com/example/qrprinter/MainActivity.kt:204-208 | Before column `8k + j`, the accumulator holds exactly the ink bits of that group's first `j` columns, each already at bit `7 - column % 8`. Nothing is carried over from an earlier group or row. |
| Encoder.AccumulateColumn | app/src/main/java/com/example/qrprinter/MainActivity.kt:206-207 | `byte or (1 shl (7 - x % 8))`, applied only for an ink pixel, extends the accumulated group by one bit. |
| Encoder.AppendBit | app/src/main/java/com/example/qrprinter/MainActivity.kt:207 | Or-ing `1 shl (7 - j)` into a value whose low `8 - j` bits are clear adds that bit, so the packed prefix grows by one digit. |
| Encoder.FlushIsPackedByte | app/src/main/java/com/example/qrprinter/MainActivity.kt:209-210 | A flush after a full group, or after a partial last group, yields the group's packed byte. The missing columns count as clear bits. |
| Encoder.FlushEmitsPackedByte | app/src/main/java/com/example/qrprinter/MainActivity.kt:206-210 | The accumulator at a flush column equals the packed byte of that column's group. |
| Encoder.FlushWritesRowByte | app/src/main/java/com/example/qrprinter/MainActivity.kt:210 | The byte written at a flush, after `toByte()`, is byte `x / 8` of the packed row. |
| Encoder.FlushAdvances | app/src/main/java/com/example/qrprinter/MainActivity.kt:209-211 | A flush at column `x` emits byte `x / 8`. The next column, if there is one, starts a new group. |
| Encoder.NoFlushStays | app/src/main/java/com/example/qrprinter/MainActivity.kt:209 | Without a flush, no byte is written and the next column stays inside the same group. |
| Encoder.RowFits | app/src/main/java/com/example/qrprinter/MainActivity.kt:191-213 | Every row's bytes end before the line feed's slot, which is itself inside the allocated array. |
| Encoder.AssembledFrame | app/src/main/java/com/example/qrprinter/MainActivity.kt:217-218 | A buffer of the allocated size holding header, rows and line feed, with zeros after them, is the whole frame. The untouched remainder of the array is part of the output. |
| EscPos.Frame | app/src/main/java/com/example/qrprinter/MainActivity.kt:191 | The stream's length is the allocated size `(width / 8 + 1) * height + 8`, not the number of bytes written. |
| EscPos.Slack | app/src/main/java/com/example/qrprinter/MainActivity.kt:191 | The allocation exceeds what is written (`6 + height * ceil(width / 8) + 1`) by `height + 1` when the width is a multiple of 8, and by 1 otherwise. |
| EscPos.WrittenFitsCapacity | app/src/main/java/com/example/qrprinter/MainActivity.kt:191-217 | For every width and height, all writes fit the array: no write index reaches its end. |
| EscPos.FrameHeader | app/src/main/java/com/example/qrprinter/MainActivity.kt:196-201 | The first six bytes are `1B`, `2A`, `21`, `(width / 8) mod 256`, `height mod 256` and `(height / 256) mod 256`. |
| EscPos.HeaderWidthMatchesRowsIffMultipleOf8 | app/src/main/java/com/example/qrprinter/MainActivity.kt:199 | For widths whose width byte does not wrap, the width byte equals the bytes each row carries if and only if the width is a multiple of 8. |
| EscPos.RowsIndex | app/src/main/java/com/example/qrprinter/MainActivity.kt:203-213 | In the concatenated rows, byte `k` of row `y` sits at `y * ceil(width / 8) + k`. |
| EscPos.RowPlacement | app/src/main/java/com/example/qrprinter/MainActivity.kt:203-213 | In the stream, byte `k` of row `y` sits at offset `6 + y * ceil(width / 8) + k` and is the packed byte of columns `8k .. 8k+7`. |
| EscPos.FrameRowIsPackRow | app/src/main/java/com/example/qrprinter/MainActivity.kt:203-213 | The `ceil(width / 8)` bytes of row `y` in the stream are that row packed. |
| EscPos.PackedBit | app/src/main/java/com/example/qrprinter/MainActivity.kt:207 | Bit `7 - j` of a packed byte is the ink bit of the group's column `j`. |
| EscPos.InkBitPlacement | app/src/main/java/com/example/qrprinter/MainActivity.kt:205-207 | Bit `7 - x % 8` of row `y`'s byte `x / 8` is set if and only if pixel `(x, y)` is exactly `0xFF000000`. |
| EscPos.UnpackFrameRow | app/src/main/java/com/example/qrprinter/MainActivity.kt:205-210 | Round trip: unpacking any row of the stream gives back the image's ink map for every column below the width. |
| EscPos.PaddingBitsClear | app/src/main/java/com/example/qrprinter/MainActivity.kt:209-211 | When the width is not a multiple of 8, the bits of a row's last byte beyond the last column are clear. |
| EscPos.PackedByteIsLocal | app/src/main/java/com/example/qrprinter/MainActivity.kt:204-211 | A packed byte depends only on the pixels of its own eight columns in its own row, so no bits leak between bytes or rows. |
| EscPos.FrameTail | app/src/main/java/com/example/qrprinter/MainActivity.kt:217-218 | The line feed sits at `6 + height * ceil(width / 8)` and every later byte is zero. There is one such zero when the width is not a multiple of 8, and `height + 1` when it is. |
| EscPos.DegenerateFrame | app/src/main/java/com/example/qrprinter/MainActivity.kt:203-217 | With zero width or zero height, the stream is the header, the line feed and zeros. |
| Raster.InkIsExactOpaqueBlack | app/src/main/java/com/example/qrprinter/MainActivity.kt:206 | A pixel is ink if and only if its ARGB word is `0xFF000000`, that is the `Int` -16777216. Any other colour, however dark, is not ink. |
| Raster.ToInt32 | app/src/main/java/com/example/qrprinter/MainActivity.kt:206 | `0xFF000000.toInt()` keeps the low 32 bits: the result is congruent to the argument modulo 2^32. |
| Raster.Argb | app/src/main/java/com/example/qrprinter/MainActivity.kt:206 | Reading an `Int` colour as an unsigned 32-bit word is the inverse of `toInt()`. |
| Bits.Trunc8 | app/src/main/java/com/example/qrprinter/MainActivity.kt:196-201 | `toByte()` keeps the low eight bits: byte values pass through unchanged, and larger values lose a multiple of 256. |
| Bits.BitOrIsBitwise | app/src/main/java/com/example/qrprinter/MainActivity.kt:207 | Bit `i` of `a or b` is set if and only if it is set in `a` or in `b`. |
| Bits.BitOrSetsClearBit | app/src/main/java/com/example/qrprinter/MainActivity.kt:207 | Or-ing `1 shl i` into a number whose bits `i .. 0` are clear adds `2^i`. |
| Bits.UnpackPack | app/src/main/java/com/example/qrprinter/MainActivity.kt:207-210 | Unpacking a packed bit list gives the list back. |
| Bits.PackUnpack | app/src/main/java/com/example/qrprinter/MainActivity.kt:207-210 | Packing the low `n` bits of a number below `2^n` gives the number back. |
| Bits.BitsAgreeWithTestBit | app/src/main/java/com/example/qrprinter/MainActivity.kt:207 | Position `j` of an `n`-bit unpacking is bit `n - 1 - j` of the number. |
| Bits.ToNatPadded | app/src/main/java/com/example/qrprinter/MainActivity.kt:209-210 | Padding a group's bits with clear bits shifts its value left, which is what a flush of a partial last group gives. |
| Examples.AllBlackGroup | app/src/main/java/com/example/qrprinter/MainActivity.kt:188-219 | An all-black 8 x 1 image gives `1B 2A 21 01 01 00 FF 0A 00 00`. |
| Examples.NinthColumnStartsNewByte | app/src/main/java/com/example/qrprinter/MainActivity.kt:188-219 | A 9 x 1 image with only its first pixel black gives `1B 2A 21 01 01 00 80 00 0A 00`. The row takes two bytes while the width byte says one. |

## Left out

- `sendBitmapToPrinter` (MainActivity.kt lines 155-186): opening the RFCOMM socket, writing, flushing and closing it, and the error cleanup. This is Bluetooth I/O through Android APIs.
- Device discovery, the device dialog, the Bluetooth-enable request and the permission callbacks (MainActivity.kt lines 35-108 and 221-232). This is Android UI and platform plumbing.
- Image picking and `convertImageToBitmap` (MainActivity.kt lines 110-145). Decoding goes through `BitmapFactory`, a foreign library. The decoded pixel grid is the model's input.
- The null checks and Toast messages of `printImage` and `sendBitmapToPrinter` (MainActivity.kt lines 147-159). They are user feedback only.
- Kotlin's signed `Byte`: every output byte is given as its unsigned value 0..255. `toByte()` is modelled as keeping the value modulo 256.
- `getPixel`: modelled as a total pixel function of the bitmap, consulted only inside the bounds. The platform's bounds check is not modelled.
- Encoder.BitmapToEscPosCommands: Kotlin's 32-bit `Int` is not modelled for the allocation size `(width / 8 + 1) * height + 8`. That size is exact only while it stays below 2^31. Larger images, where the product would overflow, are outside the model.
- The array and its write index are modelled as an immutable sequence that each write replaces. The inner loop's body is a separate method, `Encoder.ScanColumn`, and the two loops are `Encoder.EmitRow` and `Encoder.EmitRows`. This changes neither the order of writes nor their values.
