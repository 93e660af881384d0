/** Worked frames for small images, fixing the byte layout on concrete inputs. */
module Examples {
  import opened Bits
  import opened Raster
  import opened EscPos

  /** An 8 x 1 image, every pixel opaque black: one full byte of dots. */
  lemma AllBlackGroup()
    ensures Frame(Bitmap(8, 1, (x, y) => OpaqueBlack))
            == [0x1B, 0x2A, 0x21, 1, 1, 0, 0xFF, 0x0A, 0, 0]
  {
    var bm := Bitmap(8, 1, (x, y) => OpaqueBlack);
    var g := GroupBits(bm, 0, 0);
    forall j | 0 <= j < 8
      ensures g[j]
    {
      assert g[j] == IsInk(bm.pixel(j, 0));
    }
    assert g == [true, true, true, true, true, true, true, true];
    assert ToBits(0xFF, 8) == g;
    PackUnpack(0xFF, 8);
    assert PackRow(bm, 0) == [0xFF];
  }

  /**
   A 9 x 1 image with only its first pixel black: the row takes two bytes,
   the ninth column alone in the high bit of the second, while the header's
   width byte says one.
   */
  lemma NinthColumnStartsNewByte()
    ensures Frame(Bitmap(9, 1, (x, y) => if x == 0 && y == 0 then OpaqueBlack else 0))
            == [0x1B, 0x2A, 0x21, 1, 1, 0, 0x80, 0x00, 0x0A, 0]
  {
    var bm := Bitmap(9, 1, (x, y) => if x == 0 && y == 0 then OpaqueBlack else 0);
    var g0, g1 := GroupBits(bm, 0, 0), GroupBits(bm, 0, 1);
    forall j | 0 <= j < 8
      ensures g0[j] == (j == 0) && !g1[j]
    {
      assert g0[j] == IsInk(bm.pixel(j, 0));
      assert g1[j] == (8 + j < 9 && IsInk(bm.pixel(8 + j, 0)));
    }
    assert ToBits(0x80, 8) == g0;
    PackUnpack(0x80, 8);
    assert ToBits(0, 8) == g1;
    PackUnpack(0, 8);
    assert PackRow(bm, 0) == [0x80, 0x00];
  }
}
