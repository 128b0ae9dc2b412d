/** YUV 4:2:2 to RGB565, converted inside one buffer. */
module Colour {
  import C = CArith

  type Byte = bv8

  datatype Rgb = Rgb(r: C.Byte, g: C.Byte, b: C.Byte)

  /** The components as bytes, for packing. */
  datatype RgbBytes = RgbBytes(r: Byte, g: Byte, b: Byte)

  function ToBytes(c: Rgb): RgbBytes { RgbBytes(c.r as Byte, c.g as Byte, c.b as Byte) }

  /** The itou8 macro. */
  function Clamp(v: int): (u: int)
    ensures 0 <= u <= 255
    ensures u == v || (v < 0 && u == 0) || (v > 255 && u == 255)
  {
    if v < 0 then 0 else if v > 255 then 255 else v
  }

  function RedSum(y: int, cr: int): int { 128 * (y - 16) + 202 * (cr - 128) + 64 }
  function GreenSum(y: int, cb: int, cr: int): int { 128 * (y - 16) - 24 * (cb - 128) - 60 * (cr - 128) + 64 }
  function BlueSum(y: int, cb: int): int { 128 * (y - 16) + 238 * (cb - 128) + 64 }

  function RedOf(y: int, cr: int): int { C.CDiv(RedSum(y, cr), 128) }
  function GreenOf(y: int, cb: int, cr: int): int { C.CDiv(GreenSum(y, cb, cr), 128) }
  function BlueOf(y: int, cb: int): int { C.CDiv(BlueSum(y, cb), 128) }

  /** ycbcr2rgb */
  function YcbcrToRgb(y: Byte, cb: Byte, cr: Byte): Rgb {
    Rgb(Clamp(RedOf(y as int, cr as int)),
        Clamp(GreenOf(y as int, cb as int, cr as int)),
        Clamp(BlueOf(y as int, cb as int)))
  }

  /** ycbcrtorgb565, packing step */
  function Pack(c: RgbBytes): bv16 {
    (((c.r >> 3) & 0x1f) as bv16 << 11) | (((c.g >> 2) & 0x3f) as bv16 << 5) | (((c.b >> 3) & 0x1f) as bv16)
  }

  function Pixel(y: Byte, cb: Byte, cr: Byte): bv16 { Pack(ToBytes(YcbcrToRgb(y, cb, cr))) }

  function RedField(p: bv16): Byte { (p >> 11) as Byte }
  function GreenField(p: bv16): Byte { ((p >> 5) & 0x3f) as Byte }
  function BlueField(p: bv16): Byte { (p & 0x1f) as Byte }

  /** Red on top, green in the middle, blue below: each field is its component without the low bits. */
  lemma PackedFields(c: RgbBytes)
    ensures RedField(Pack(c)) == (Pack(c) >> 11) as Byte == c.r >> 3
    ensures GreenField(Pack(c)) == ((Pack(c) >> 5) & 0x3f) as Byte == c.g >> 2
    ensures BlueField(Pack(c)) == (Pack(c) & 0x1f) as Byte == c.b >> 3
  {
    assert ((c.r >> 3) & 0x1f) == c.r >> 3 && ((c.g >> 2) & 0x3f) == c.g >> 2 && ((c.b >> 3) & 0x1f) == c.b >> 3;
  }

  /** Little-endian halves of a packed pixel. */
  function Low(p: bv16): Byte { (p & 0xff) as Byte }
  function High(p: bv16): Byte { (p >> 8) as Byte }
  function Load(lo: Byte, hi: Byte): bv16 { (hi as bv16 << 8) | (lo as bv16) }

  lemma StoredPixel(p: bv16)
    ensures Load(Low(p), High(p)) == p
  {
  }

  /** Four bytes of the buffer: U Y0 V Y1 before the conversion, two packed pixels after it. */
  datatype Group = Group(b0: Byte, b1: Byte, b2: Byte, b3: Byte)

  function GroupAt(s: seq<Byte>, k: nat): Group
    requires 4 * k + 4 <= |s|
  {
    Group(s[4 * k], s[4 * k + 1], s[4 * k + 2], s[4 * k + 3])
  }

  /** `rgb` holds the two pixels of `yuv`. */
  predicate Shows(yuv: Group, rgb: Group) {
    && Load(rgb.b0, rgb.b1) == Pixel(yuv.b1, yuv.b0, yuv.b2)
    && Load(rgb.b2, rgb.b3) == Pixel(yuv.b3, yuv.b0, yuv.b2)
  }

  /** The first `n` groups of `t` show those of `s`, and the bytes behind them are the same. */
  ghost predicate Converted(shows: (Group, Group) -> bool, s: seq<Byte>, t: seq<Byte>, n: nat) {
    && 4 * n <= |s| == |t| && s[4 * n..] == t[4 * n..]
    && forall k | 0 <= k < n :: shows(GroupAt(s, k), GroupAt(t, k))
  }

  lemma OneGroupMore(shows: (Group, Group) -> bool, s: seq<Byte>, t: seq<Byte>, u: seq<Byte>, n: nat)
    requires Converted(shows, s, t, n) && 4 * n + 4 <= |s| == |u|
    requires t[..4 * n] == u[..4 * n] && t[4 * n + 4..] == u[4 * n + 4..]
    requires shows(GroupAt(t, n), GroupAt(u, n))
    ensures Converted(shows, s, u, n + 1)
  {
    assert GroupAt(t, n) == GroupAt(s, n) by {
      assert forall j | 0 <= j < 4 :: s[4 * n..][j] == t[4 * n..][j];
    }
    forall k | 0 <= k < n ensures shows(GroupAt(s, k), GroupAt(u, k)) {
      assert forall j | 4 * k <= j < 4 * k + 4 :: t[..4 * n][j] == u[..4 * n][j];
    }
    assert s[4 * n + 4..] == s[4 * n..][4..] == t[4 * n..][4..] == t[4 * n + 4..];
  }

  /** Two pixels stored one after the other. */
  function Stored(p: bv16, q: bv16): Group { Group(Low(p), High(p), Low(q), High(q)) }

  lemma StoredShows(yuv: Group)
    ensures Shows(yuv, Stored(Pixel(yuv.b1, yuv.b0, yuv.b2), Pixel(yuv.b3, yuv.b0, yuv.b2)))
  {
    StoredPixel(Pixel(yuv.b1, yuv.b0, yuv.b2));
    StoredPixel(Pixel(yuv.b3, yuv.b0, yuv.b2));
  }

  /** The `*dest++ = ...` stores of two packed pixels. */
  method StorePixels(buf: array<Byte>, dest: nat, p: bv16, q: bv16, ghost k: nat)
    requires dest == 4 * k && dest + 4 <= buf.Length
    modifies buf
    ensures GroupAt(buf[..], k) == Stored(p, q)
    ensures buf[..4 * k] == old(buf[..4 * k]) && buf[4 * k + 4..] == old(buf[4 * k + 4..])
  {
    buf[dest], buf[dest + 1] := Low(p), High(p);
    buf[dest + 2], buf[dest + 3] := Low(q), High(q);
  }

  /** yuv2rgb: source and destination pointers walk the same buffer. */
  method Yuv2Rgb(buf: array<Byte>, size: nat)
    requires size <= buf.Length
    modifies buf
    ensures Converted(Shows, old(buf[..]), buf[..], size / 4)
  {
    ghost var was := buf[..];
    var src, dest, i := 0, 0, 0;
    while i < size / 4
      invariant 0 <= i <= size / 4 && src == dest == 4 * i
      invariant Converted(Shows, was, buf[..], i)
    {
      ghost var before := buf[..];
      ConvertGroup(buf, src, dest, i);
      OneGroupMore(Shows, was, before, buf[..], i);
      src, dest, i := src + 4, dest + 4, i + 1;
    }
  }

  /** The loop body of yuv2rgb: four bytes are read, then overwritten. */
  method ConvertGroup(buf: array<Byte>, src: nat, dest: nat, ghost k: nat)
    requires src == dest == 4 * k && src + 4 <= buf.Length
    modifies buf
    ensures Shows(old(GroupAt(buf[..], k)), GroupAt(buf[..], k))
    ensures buf[..4 * k] == old(buf[..4 * k]) && buf[4 * k + 4..] == old(buf[4 * k + 4..])
  {
    var u0, y0, v0, y1 := buf[src], buf[src + 1], buf[src + 2], buf[src + 3];
    StoredShows(Group(u0, y0, v0, y1));
    StorePixels(buf, dest, Pixel(y0, u0, v0), Pixel(y1, u0, v0), k);
  }

  // ---------------------------------------------------------------- the colours

  /** `n` is the integer nearest to `v`, the upper one of two. */
  predicate Nearest(n: int, v: real) { n as real - 0.5 <= v < n as real + 0.5 }

  /** The real-valued conversion. */
  function RealRed(y: int, cr: int): real { (y - 16) as real + 1.578125 * (cr - 128) as real }

  function RealGreen(y: int, cb: int, cr: int): real {
    (y - 16) as real - 0.1875 * (cb - 128) as real - 0.46875 * (cr - 128) as real
  }

  function RealBlue(y: int, cb: int): real { (y - 16) as real + 1.859375 * (cb - 128) as real }

  /** 128 times a value, rounded by adding a half and dividing: nearest, unless the division truncates below zero. */
  lemma Rounded(sum: int, n: int, v: real)
    requires sum as real == 128.0 * v + 64.0 && Nearest(n, v)
    ensures Clamp(C.CDiv(sum, 128)) == Clamp(n) && (sum >= 0 ==> C.CDiv(sum, 128) == n)
  {
    assert 128.0 * n as real <= sum as real < 128.0 * n as real + 128.0;
    assert (128 * n) as real == 128.0 * n as real;
    assert 128 * n <= sum < 128 * n + 128;
    QuotientIs(sum, n);
  }

  lemma QuotientIs(sum: int, n: int)
    requires 128 * n <= sum < 128 * n + 128
    ensures if sum >= 0 then C.CDiv(sum, 128) == n else n < 0 && C.CDiv(sum, 128) <= 0
  {
  }

  lemma RedNearest(y: int, cr: int, n: int)
    requires Nearest(n, RealRed(y, cr))
    ensures Clamp(RedOf(y, cr)) == Clamp(n) && (n >= 0 ==> RedOf(y, cr) == n)
  {
    Rounded(RedSum(y, cr), n, RealRed(y, cr));
  }

  lemma GreenNearest(y: int, cb: int, cr: int, n: int)
    requires Nearest(n, RealGreen(y, cb, cr))
    ensures Clamp(GreenOf(y, cb, cr)) == Clamp(n) && (n >= 0 ==> GreenOf(y, cb, cr) == n)
  {
    Rounded(GreenSum(y, cb, cr), n, RealGreen(y, cb, cr));
  }

  lemma BlueNearest(y: int, cb: int, n: int)
    requires Nearest(n, RealBlue(y, cb))
    ensures Clamp(BlueOf(y, cb)) == Clamp(n) && (n >= 0 ==> BlueOf(y, cb) == n)
  {
    Rounded(BlueSum(y, cb), n, RealBlue(y, cb));
  }

  predicate IsRounding(rgb: (int, int, int), y: Byte, cb: Byte, cr: Byte) {
    && Nearest(rgb.0, RealRed(y as int, cr as int)) && Nearest(rgb.1, RealGreen(y as int, cb as int, cr as int))
    && Nearest(rgb.2, RealBlue(y as int, cb as int))
  }

  function Clamped(rgb: (int, int, int)): Rgb {
    Rgb(Clamp(rgb.0), Clamp(rgb.1), Clamp(rgb.2))
  }

  /** The components of a converted pixel: the integers nearest to the real conversion, clamped to a byte. */
  lemma ComponentsNearest(y: Byte, cb: Byte, cr: Byte, rgb: (int, int, int))
    requires IsRounding(rgb, y, cb, cr)
    ensures YcbcrToRgb(y, cb, cr) == Clamped(rgb)
  {
    RedNearest(y as int, cr as int, rgb.0);
    GreenNearest(y as int, cb as int, cr as int, rgb.1);
    BlueNearest(y as int, cb as int, rgb.2);
  }

  /** The two bytes of a packed pixel: five bits of red, six of green, five of blue, low byte first. */
  predicate Holds(lo: Byte, hi: Byte, c: RgbBytes) {
    hi >> 3 == c.r >> 3 && ((hi & 7) << 3) | (lo >> 5) == c.g >> 2 && lo & 0x1f == c.b >> 3
  }

  lemma LoadedHolds(lo: Byte, hi: Byte, c: RgbBytes)
    requires Load(lo, hi) == Pack(c)
    ensures Holds(lo, hi, c)
  {
  }

  /**
   * What the buffer holds after yuv2rgb: of each group U Y0 V Y1, first the colour of Y0, then that of Y1, both with
   * the group's U and V, each component the clamped integer nearest to the real conversion, cut to its bits.
   */
  lemma ConvertedColours(s: seq<Byte>, t: seq<Byte>, n: nat, k: nat, first: (int, int, int), second: (int, int, int))
    requires Converted(Shows, s, t, n) && k < n
    requires IsRounding(first, s[4 * k + 1], s[4 * k], s[4 * k + 2])
    requires IsRounding(second, s[4 * k + 3], s[4 * k], s[4 * k + 2])
    ensures Holds(t[4 * k], t[4 * k + 1], ToBytes(Clamped(first)))
    ensures Holds(t[4 * k + 2], t[4 * k + 3], ToBytes(Clamped(second)))
  {
    assert Shows(GroupAt(s, k), GroupAt(t, k));
    PixelHolds(t[4 * k], t[4 * k + 1], s[4 * k + 1], s[4 * k], s[4 * k + 2], first);
    PixelHolds(t[4 * k + 2], t[4 * k + 3], s[4 * k + 3], s[4 * k], s[4 * k + 2], second);
  }

  lemma PixelHolds(lo: Byte, hi: Byte, y: Byte, cb: Byte, cr: Byte, rgb: (int, int, int))
    requires Load(lo, hi) == Pixel(y, cb, cr) && IsRounding(rgb, y, cb, cr)
    ensures Holds(lo, hi, ToBytes(Clamped(rgb)))
  {
    ComponentsNearest(y, cb, cr, rgb);
    LoadedHolds(lo, hi, ToBytes(YcbcrToRgb(y, cb, cr)));
  }

  lemma DivMonotone(a: int, b: int)
    requires a <= b
    ensures Clamp(C.CDiv(a, 128)) <= Clamp(C.CDiv(b, 128))
  {
  }

  /** Red follows luma and Cr, blue luma and Cb; green follows luma and falls with either. */
  lemma Directions(y: int, y': int, cb: int, cb': int, cr: int, cr': int)
    requires y <= y' && cb <= cb' && cr <= cr'
    ensures Clamp(RedOf(y, cr)) <= Clamp(RedOf(y', cr'))
    ensures Clamp(GreenOf(y, cb', cr')) <= Clamp(GreenOf(y', cb, cr))
    ensures Clamp(BlueOf(y, cb)) <= Clamp(BlueOf(y', cb'))
  {
    DivMonotone(RedSum(y, cr), RedSum(y', cr'));
    DivMonotone(GreenSum(y, cb', cr'), GreenSum(y', cb, cr));
    DivMonotone(BlueSum(y, cb), BlueSum(y', cb'));
  }

  /** Neutral chroma gives grey. */
  lemma NeutralIsGrey(y: Byte)
    ensures var grey := Clamp(y as int - 16); YcbcrToRgb(y, 128, 128) == Rgb(grey, grey, grey)
  {
    var grey := y as int - 16;
    ComponentsNearest(y, 128, 128, (grey, grey, grey));
  }
}
