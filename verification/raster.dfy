/**
 The encoder's input: a decoded image seen as a width, a height and a pixel
 function returning Android's packed ARGB colour as a signed 32-bit `Int`.
 Decoding a file into this grid happens outside the model.
 */
module Raster {

  /** Kotlin's `Int`. */
  type Int32 = v: int | -0x8000_0000 <= v < 0x8000_0000

  const TwoTo32: int := 0x1_0000_0000

  /**
   The image being printed. `pixel(x, y)` is only consulted for
   `0 <= x < width` and `0 <= y < height`.
   */
  datatype Bitmap = Bitmap(width: nat, height: nat, pixel: (nat, nat) -> Int32)

  /** Kotlin's `Long.toInt()`: keep the low 32 bits, read them as two's complement. */
  function ToInt32(v: int): (r: Int32)
    ensures (v - r) % TwoTo32 == 0
  {
    var m := v % TwoTo32;
    if m < 0x8000_0000 then m else m - TwoTo32
  }

  /** The 32 bits of an `Int` read as an unsigned number, i.e. the ARGB word. */
  function Argb(p: Int32): (w: nat)
    ensures w < TwoTo32
    ensures ToInt32(w) == p
  {
    if p < 0 then p + TwoTo32 else p
  }

  /** Opaque black, `0xFF000000.toInt()`. */
  const OpaqueBlack: Int32 := ToInt32(0xFF00_0000)

  /**
   The encoder's ink test: a pixel prints a dot exactly when its colour word
   is alpha 0xFF with red, green and blue all 0. Every other colour, however
   dark or transparent, prints nothing.
   */
  predicate IsInk(p: Int32)
  {
    p == OpaqueBlack
  }

  /** The ink test compares the whole ARGB word against 0xFF000000, i.e. -16777216 as an `Int`. */
  lemma InkIsExactOpaqueBlack(p: Int32)
    ensures IsInk(p) <==> Argb(p) == 0xFF00_0000
    ensures IsInk(p) <==> p == -16777216
  {
  }
}
