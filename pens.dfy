/** Pen encoding: 8-bit red, green and blue channels packed into one RGB565
    word, then byte-swapped into the order the display expects. */
module Pens {

  type Pen = bv16

  /** The RGB565 word before the byte swap: red in bits 15..11, green in bits
      10..5 and blue in bits 4..0, each keeping its most significant bits. */
  function Pack565(r: bv8, g: bv8, b: bv8): (p: bv16)
    ensures p >> 11 == (r >> 3) as bv16
    ensures (p >> 5) & 0x3F == (g >> 2) as bv16
    ensures p & 0x1F == (b >> 3) as bv16
  {
    ((r as bv16 & 0xF8) << 8) | ((g as bv16 & 0xFC) << 3) | ((b as bv16 & 0xF8) >> 3)
  }

  /** `__builtin_bswap16`: the two bytes of the word trade places. */
  function ByteSwap16(v: bv16): (s: bv16)
    ensures s >> 8 == v & 0xFF && s & 0xFF == v >> 8
  {
    (v << 8) | (v >> 8)
  }

  lemma ByteSwapInvolution(v: bv16)
    ensures ByteSwap16(ByteSwap16(v)) == v
  {
  }

  /** `create_pen`: swapping the pen's bytes back recovers the packed word. */
  function CreatePen(r: bv8, g: bv8, b: bv8): (p: Pen)
    ensures ByteSwap16(p) == Pack565(r, g, b)
  {
    ByteSwapInvolution(Pack565(r, g, b));
    ByteSwap16(Pack565(r, g, b))
  }

  /** Only the top 5, 6 and 5 bits of the channels reach the pen. */
  lemma LowBitsIgnored(r: bv8, g: bv8, b: bv8)
    ensures CreatePen(r, g, b) == CreatePen(r & 0xF8, g & 0xFC, b & 0xF8)
  {
  }

  /** Two colours give the same pen exactly when their truncated channels
      agree: distinct truncated colours give distinct pens. */
  lemma CreatePenInjective(r: bv8, g: bv8, b: bv8, r2: bv8, g2: bv8, b2: bv8)
    ensures CreatePen(r, g, b) == CreatePen(r2, g2, b2) <==>
      r >> 3 == r2 >> 3 && g >> 2 == g2 >> 2 && b >> 3 == b2 >> 3
  {
    if CreatePen(r, g, b) == CreatePen(r2, g2, b2) {
      SamePenSameFields(r, g, b, r2, g2, b2);
    }
    if r >> 3 == r2 >> 3 && g >> 2 == g2 >> 2 && b >> 3 == b2 >> 3 {
      SameFieldsSamePen(r, g, b, r2, g2, b2);
    }
  }

  lemma SamePenSameFields(r: bv8, g: bv8, b: bv8, r2: bv8, g2: bv8, b2: bv8)
    requires CreatePen(r, g, b) == CreatePen(r2, g2, b2)
    ensures r >> 3 == r2 >> 3 && g >> 2 == g2 >> 2 && b >> 3 == b2 >> 3
  {
    var p, p2 := Pack565(r, g, b), Pack565(r2, g2, b2);
    assert p == p2;
    assert (r >> 3) as bv16 == (r2 >> 3) as bv16;
    assert (g >> 2) as bv16 == (g2 >> 2) as bv16;
    assert (b >> 3) as bv16 == (b2 >> 3) as bv16;
  }

  lemma SameFieldsSamePen(r: bv8, g: bv8, b: bv8, r2: bv8, g2: bv8, b2: bv8)
    requires r >> 3 == r2 >> 3 && g >> 2 == g2 >> 2 && b >> 3 == b2 >> 3
    ensures CreatePen(r, g, b) == CreatePen(r2, g2, b2)
  {
    var p, p2 := Pack565(r, g, b), Pack565(r2, g2, b2);
    Recompose(p);
    Recompose(p2);
    assert p == p2;
  }

  /** A 16-bit word is determined by its three colour fields. */
  lemma Recompose(p: bv16)
    ensures p == ((p >> 11) << 11) | (((p >> 5) & 0x3F) << 5) | (p & 0x1F)
  {
  }

  /** Pure red packs to 0xF800, which the swap stores as 0x00F8. */
  lemma PureRed()
    ensures Pack565(255, 0, 0) == 0xF800 && CreatePen(255, 0, 0) == 0x00F8
  {
  }
}
