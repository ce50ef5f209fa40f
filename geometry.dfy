// Frame geometry of the hello_encode demo: the size macros of encode.c,
// written as functions of the frame width so that their properties can be
// stated for every width and not only for the value the program compiles in,
// and the plane layout they define.

module Geometry {

  /** The width the program is compiled with (WIDTH). */
  const WIDTH: nat := 640

  /** PITCH: the width rounded up to a multiple of 32, `(w + 31) & ~31`. */
  function Pitch(w: nat): (p: nat)
    ensures p % 32 == 0
    ensures w <= p < w + 32
  {
    (w + 31) / 32 * 32
  }

  /** HEIGHT: a 16:9 picture, `w * 9 / 16` in integer division. */
  function Height(w: nat): (h: nat)
    ensures 16 * h <= 9 * w < 16 * h + 16
  {
    w * 9 / 16
  }

  /** HEIGHT16: the height rounded up to a multiple of 16, `(h + 15) & ~15`. */
  function Height16(w: nat): (h16: nat)
    ensures h16 % 16 == 0
    ensures Height(w) <= h16 < Height(w) + 16
  {
    (Height(w) + 15) / 16 * 16
  }

  /**
   * The frame layout: the picture is `width` x `height` pixels, stored as a
   * luma plane of `pitch` x `height16` bytes followed by a U and a V plane
   * of (pitch / 2) x (height16 / 2) bytes each.
   */
  datatype Layout = Layout(width: nat, pitch: nat, height: nat, height16: nat)

  /** The layout the macros give for width w. */
  function LayoutOf(w: nat): (g: Layout)
    ensures 0 < w ==> WellFormed(g)
  {
    var g := Layout(w, Pitch(w), Height(w), Height16(w));
    EvenMultiple(g.pitch, 32);
    EvenMultiple(g.height16, 16);
    g
  }

  /** A multiple of an even number is even. */
  lemma EvenMultiple(n: nat, m: nat)
    requires 0 < m && m % 2 == 0 && n % m == 0
    ensures n % 2 == 0
  {
    var q := n / m;
    assert n == m * q;
    assert n == 2 * ((m / 2) * q);
  }

  /**
   * What the plane offsets rely on: rows fit in the pitch, the picture's
   * rows fit in the slice height, and both halve exactly for chroma.
   */
  predicate WellFormed(g: Layout)
  {
    0 < g.width <= g.pitch && g.pitch % 2 == 0 &&
    g.height <= g.height16 && g.height16 % 2 == 0
  }

  /** Distance between two chroma rows, `PITCH >> 1`. */
  function ChromaPitch(g: Layout): nat
  {
    g.pitch / 2
  }

  /** Number of rows of one chroma plane, `HEIGHT16 >> 1`. */
  function ChromaRows(g: Layout): nat
  {
    g.height16 / 2
  }

  /** Offset of the U plane: the luma plane is PITCH x HEIGHT16 bytes. */
  function UStart(g: Layout): (u: nat)
    ensures WellFormed(g) ==> u == 4 * (ChromaPitch(g) * ChromaRows(g))
  {
    if WellFormed(g) then
      QuarterPlane(g.pitch, g.height16);
      g.pitch * g.height16
    else g.pitch * g.height16
  }

  /** Offset of the V plane: right after the U plane. */
  function VStart(g: Layout): (v: nat)
    ensures WellFormed(g) ==> 4 * (v - UStart(g)) == UStart(g)
  {
    UStart(g) + ChromaPitch(g) * ChromaRows(g)
  }

  /** One past the last byte of the V plane. */
  function FrameEnd(g: Layout): (e: nat)
    ensures e - VStart(g) == VStart(g) - UStart(g)
    ensures WellFormed(g) ==> 2 * e == 3 * UStart(g)
  {
    VStart(g) + ChromaPitch(g) * ChromaRows(g)
  }

  /**
   * SIZE exactly as the macro computes it: `(WIDTH * HEIGHT16 * 3) / 2`.
   * It multiplies by the width where the plane offsets use the pitch.
   */
  function SizeAsWritten(g: Layout): (n: nat)
    ensures g.height16 % 2 == 0 ==> 2 * n == 3 * g.width * g.height16
  {
    var n := g.width * g.height16 * 3 / 2;
    if g.height16 % 2 == 0 then
      assert g.width * g.height16 * 3 == 2 * (g.width * (g.height16 / 2) * 3);
      n
    else n
  }

  /**
   * The length of one frame as the plane offsets lay it out,
   * `PITCH * HEIGHT16 * 3 / 2`: the three planes fill it exactly.
   */
  function FrameSize(g: Layout): (n: nat)
    requires WellFormed(g)
    ensures n == FrameEnd(g)
  {
    PlanesFillFrame(g.pitch, g.height16);
    g.pitch * g.height16 * 3 / 2
  }

  /** A plane of p x h bytes holds four planes of (p/2) x (h/2) bytes. */
  lemma QuarterPlane(p: nat, h: nat)
    requires p % 2 == 0 && h % 2 == 0
    ensures p * h == 4 * ((p / 2) * (h / 2))
  {
    var q, r := p / 2, h / 2;
    assert p * h == (2 * q) * (2 * r);
  }

  /** A luma plane of p x h bytes and two chroma planes of (p/2) x (h/2) bytes. */
  lemma PlanesFillFrame(p: nat, h: nat)
    requires p % 2 == 0 && h % 2 == 0
    ensures p * h * 3 / 2 == p * h + (p / 2) * (h / 2) + (p / 2) * (h / 2)
  {
    var q, r := p / 2, h / 2;
    var m := q * r;
    assert p * h == (2 * q) * (2 * r) == 4 * m;
    assert p * h * 3 / 2 == 6 * m;
  }

  /** The geometry of the compiled-in width: 640 x 360 in a 640 x 368 layout. */
  lemma Geometry640()
    ensures LayoutOf(WIDTH) == Layout(640, 640, 360, 368)
    ensures SizeAsWritten(LayoutOf(WIDTH)) == 353280
    ensures FrameSize(LayoutOf(WIDTH)) == 353280
  {
  }

  /** When the width is already 32-aligned the macro and the layout agree. */
  lemma SizesAgreeWhenAligned(w: nat)
    requires 0 < w && Pitch(w) == w
    ensures SizeAsWritten(LayoutOf(w)) == FrameSize(LayoutOf(w))
  {
  }

  /**
   * Whenever the pitch exceeds the width (and the frame is not empty), SIZE
   * falls short of the bytes the three planes occupy.
   */
  lemma {:induction false} SizeAsWrittenShort(g: Layout)
    requires WellFormed(g) && g.width < g.pitch && 0 < g.height16
    ensures SizeAsWritten(g) < FrameSize(g)
  {
    var h := g.height16 / 2;
    assert g.width * g.height16 * 3 == (g.width * 3 * h) * 2;
    assert g.pitch * g.height16 * 3 == (g.pitch * 3 * h) * 2;
    assert g.width * 3 * h < g.pitch * 3 * h by {
      assert g.pitch * 3 * h - g.width * 3 * h == (g.pitch - g.width) * 3 * h;
    }
  }

  /**
   * For an unaligned width the macro reports fewer bytes than the planes
   * occupy: with w = 16 the pitch is 32, SIZE is 384, yet the U plane
   * already starts at byte 512 and the V plane ends at byte 768.
   */
  lemma SizeAsWrittenTooSmall()
    ensures LayoutOf(16) == Layout(16, 32, 9, 16)
    ensures SizeAsWritten(LayoutOf(16)) == 384
    ensures UStart(LayoutOf(16)) == 512 && FrameSize(LayoutOf(16)) == 768
  {
  }
}
