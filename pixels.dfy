/** Conversion of a gamma-corrected colour to an ARGB32 pixel word. */
module Pixels {
  import opened Vec3Math

  /** A colour byte as the value the packing shifts. */
  type Channel = c: bv32 | c < 256

  /** `static_cast<int>(256 * clamp(c, 0.0, 0.999))`: the colour scaled to a byte and
      truncated (the argument is never negative, so truncation is the floor). */
  function ChannelByte(c: real): (b: int)
    ensures 0 <= b <= 255
    ensures c <= 0.0 ==> b == 0
    ensures c >= 0.999 ==> b == 255
    ensures 0.0 <= c <= 0.999 ==> b as real <= 256.0 * c < b as real + 1.0
  {
    (256.0 * Clamp(c, 0.0, 0.999)).Floor
  }

  /** A brighter component never gives a smaller byte. */
  lemma ChannelByteMonotone(c1: real, c2: real)
    requires c1 <= c2
    ensures ChannelByte(c1) <= ChannelByte(c2)
  {
    var x1, x2 := 256.0 * Clamp(c1, 0.0, 0.999), 256.0 * Clamp(c2, 0.0, 0.999);
    assert x1 <= x2;
  }

  /** `(255u << 24) | (ir << 16) | (ig << 8) | ib`. */
  function Pack(ir: Channel, ig: Channel, ib: Channel): bv32 {
    (255 << 24) | (ir << 16) | (ig << 8) | ib
  }

  function Alpha(p: bv32): bv32 { (p >> 24) & 0xFF }
  function Red(p: bv32): bv32 { (p >> 16) & 0xFF }
  function Green(p: bv32): bv32 { (p >> 8) & 0xFF }
  function Blue(p: bv32): bv32 { p & 0xFF }

  /** A packed pixel is opaque and its colour bytes decode to the channels packed. */
  lemma PackDecode(ir: Channel, ig: Channel, ib: Channel)
    ensures Alpha(Pack(ir, ig, ib)) == 255
    ensures Red(Pack(ir, ig, ib)) == ir
    ensures Green(Pack(ir, ig, ib)) == ig
    ensures Blue(Pack(ir, ig, ib)) == ib
  {
  }

  /** Different channel triples pack to different words. */
  lemma PackInjective(r1: Channel, g1: Channel, b1: Channel, r2: Channel, g2: Channel, b2: Channel)
    requires Pack(r1, g1, b1) == Pack(r2, g2, b2)
    ensures r1 == r2 && g1 == g2 && b1 == b2
  {
    PackDecode(r1, g1, b1);
    PackDecode(r2, g2, b2);
  }

  /** The pixel word of a gamma-corrected colour. */
  function PixelOf(c: Color): bv32 {
    Pack(ChannelByte(c.x) as bv32, ChannelByte(c.y) as bv32, ChannelByte(c.z) as bv32)
  }

  /** A colour's pixel word is opaque and decodes to the bytes of its components. */
  lemma PixelOfDecode(c: Color)
    ensures Alpha(PixelOf(c)) == 255
    ensures Red(PixelOf(c)) == ChannelByte(c.x) as bv32 && Green(PixelOf(c)) == ChannelByte(c.y) as bv32
    ensures Blue(PixelOf(c)) == ChannelByte(c.z) as bv32
  {
    PackDecode(ChannelByte(c.x) as bv32, ChannelByte(c.y) as bv32, ChannelByte(c.z) as bv32);
  }

  /** `Qt::black` in ARGB32. */
  const Black: bv32 := 0xFF00_0000
}
