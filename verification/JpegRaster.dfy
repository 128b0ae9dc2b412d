/** Decoded images written to a file tile by tile or line by line. */
module JpegRaster {

  import opened CArith

  const PITCH := 320 // APP_QVGA_WIDTH: the row pitch output_to_file assumes, in two-byte pixels

  // ---------------------------------------------------------------- the output file

  /** fwrite of `bytes` at `pos`: a gap past the end reads as zeros, writing nothing extends nothing. */
  function Overwrite(data: seq<Byte>, pos: nat, bytes: seq<Byte>): (r: seq<Byte>)
    ensures |r| == if bytes == [] || pos + |bytes| <= |data| then |data| else pos + |bytes|
    ensures forall o | 0 <= o < |r| ::
              r[o] == if pos <= o < pos + |bytes| then bytes[o - pos] else if o < |data| then data[o] else 0
  {
    if bytes == [] then data else
      seq(if pos + |bytes| <= |data| then |data| else pos + |bytes|, o requires 0 <= o =>
        if pos <= o < pos + |bytes| then bytes[o - pos] else if o < |data| then data[o] else 0)
  }

  /** File offset of row `y` of a buffer placed at pixel `position`. */
  function RowAt(position: nat, y: nat): nat { 2 * (position + 320 * y) }

  class OutFile {
    var data: seq<Byte>
    var pos: nat

    /** fopen for writing, then a seek to the full size. The seek alone does not extend the file. */
    constructor (size: nat)
      ensures data == [] && pos == size
    {
      data, pos := [], size;
    }

    method Seek(offset: nat)
      modifies this`pos
      ensures pos == offset
    {
      pos := offset;
    }

    /** A relative seek; a width above the pitch gives a negative step through 32-bit wrap-around. */
    method SeekForward(step: int)
      requires 0 <= pos + step
      modifies this`pos
      ensures pos == old(pos) + step
    {
      pos := pos + step;
    }

    method Write(bytes: seq<Byte>)
      modifies this
      ensures data == Overwrite(old(data), old(pos), bytes) && pos == old(pos) + |bytes|
    {
      data := Overwrite(data, pos, bytes);
      pos := pos + |bytes|;
    }

    /** output_to_file: `height` rows of `width` pixels, each one pitch below the previous one. */
    method OutputToFile(buffer: seq<seq<Byte>>, position: nat, width: nat, height: nat)
      requires 1 <= height == |buffer| && forall y | 0 <= y < height :: |buffer[y]| == 2 * width
      modifies this
      ensures data == Blit(old(data), buffer, position, height)
    {
      Seek(position * 2);
      var y := 0;
      while y < height - 1
        invariant 0 <= y <= height - 1
        invariant pos == RowAt(position, y)
        invariant data == Blit(old(data), buffer, position, y)
      {
        Write(buffer[y]);
        SeekForward((320 - width) * 2);
        y := y + 1;
      }
      Write(buffer[height - 1]);
    }
  }

  /** The file after the first `n` rows of a buffer placed at pixel `position`. */
  function Blit(data: seq<Byte>, rows: seq<seq<Byte>>, position: nat, n: nat): seq<Byte>
    requires n <= |rows|
  {
    if n == 0 then data
    else Overwrite(Blit(data, rows, position, n - 1), RowAt(position, n - 1), rows[n - 1])
  }

  // ---------------------------------------------------------------- images cut into tiles

  /** An image of `rows` by `cols` tiles, each `w` by `h` pixels. */
  datatype Tiling = Tiling(w: nat, h: nat, cols: nat, rows: nat) {
    ghost predicate Valid() { w > 0 && h > 0 && cols > 0 && rows > 0 }
    function Width(): nat { w * cols }
    function Height(): nat { h * rows }
    function Bytes(): nat { 2 * (Width() * Height()) }
    predicate Has(t: (nat, nat)) { t.0 < rows && t.1 < cols }
    /** First pixel of row `y` of tile `t` in the raster; row 0 is the offset the decoder reports. */
    function Start(t: (nat, nat), y: nat): nat { (t.0 * h + y) * Width() + t.1 * w }
    /** The tile that owns a byte of the raster. */
    function Owner(o: nat): (nat, nat)
      requires w > 0 && h > 0 && cols > 0
    {
      WidthPositive(this);
      (Quotient(Line(o), h), Quotient(o / 2 % Width(), w))
    }
    function Line(o: nat): nat
      requires w > 0 && cols > 0
    {
      WidthPositive(this);
      Quotient(o / 2, Width())
    }
  }

  function Quotient(a: nat, b: nat): nat
    requires b > 0
  {
    a / b
  }

  lemma WidthPositive(g: Tiling)
    requires g.w > 0 && g.cols > 0
    ensures g.Width() > 0
  {
  }

  lemma BelowQuotient(a: nat, b: nat, n: nat)
    requires b > 0 && a < b * n
    ensures Quotient(a, b) < n && a == Quotient(a, b) * b + a % b
  {
    if a / b >= n { MulLe(n, a / b, b); }
  }

  /** A tile row lies inside one raster line. */
  lemma RowInside(g: Tiling, t: (nat, nat), y: nat)
    requires g.Valid() && g.Has(t) && y < g.h
    ensures t.1 * g.w + g.w <= g.Width()
    ensures t.0 * g.h + y < g.Height()
    ensures g.Start(t, y) == g.Start(t, 0) + y * g.Width()
    ensures g.Start(t, y) + g.w <= g.Width() * g.Height()
  {
    MulLe(t.1 + 1, g.cols, g.w);
    MulLe(t.0 + 1, g.rows, g.h);
    var line := t.0 * g.h + y;
    MulLe(line + 1, g.Height(), g.Width());
    assert (t.0 * g.h + y) * g.Width() == (t.0 * g.h) * g.Width() + y * g.Width();
  }

  lemma Locate(px: nat, W: nat, w: nat, line: nat, c: nat)
    requires w > 0 && c * w + w <= W
    ensures line * W + c * w <= px < line * W + c * w + w <==> px / W == line && px % W / w == c
  {
    if line * W + c * w <= px < line * W + c * w + w {
      DivUnique(px, W, line);
      DivUnique(px - line * W, w, c);
    }
  }

  /** A byte lies in row `y` of tile `t` exactly when `t` owns it and it is on that raster line. */
  lemma RowSpan(g: Tiling, t: (nat, nat), y: nat, o: nat)
    requires g.Valid() && g.Has(t) && y < g.h
    ensures 2 * g.Start(t, y) <= o < 2 * (g.Start(t, y) + g.w) <==> g.Owner(o) == t && g.Line(o) == t.0 * g.h + y
  {
    RowInside(g, t, y);
    WidthPositive(g);
    var line := t.0 * g.h + y;
    DivUnique(line, g.h, t.0);
    Locate(o / 2, g.Width(), g.w, line, t.1);
  }

  /** Every byte of the raster is owned by a tile of the image. */
  lemma OwnerExists(g: Tiling, o: nat)
    requires g.Valid() && o < g.Bytes()
    ensures g.Has(g.Owner(o)) && g.Line(o) == g.Owner(o).0 * g.h + g.Line(o) % g.h
  {
    WidthPositive(g);
    var px := o / 2;
    BelowQuotient(px, g.Width(), g.Height());
    BelowQuotient(g.Line(o), g.h, g.rows);
    BelowQuotient(px % g.Width(), g.w, g.cols);
  }

  type Raster = seq<Byte>

  /** What the decoder hands over for tile `t`: its rows, cut out of the image. */
  function TileRows(g: Tiling, raster: Raster, t: (nat, nat)): (rows: seq<seq<Byte>>)
    requires g.Valid() && g.Has(t) && |raster| == g.Bytes()
    ensures |rows| == g.h && forall y | 0 <= y < g.h :: |rows[y]| == 2 * g.w
    ensures forall y | 0 <= y < g.h :: 2 * (g.Start(t, y) + g.w) <= |raster|
                                       && rows[y] == raster[2 * g.Start(t, y)..2 * (g.Start(t, y) + g.w)]
  {
    assert forall y: nat | y < g.h :: g.Start(t, y) + g.w <= g.Width() * g.Height() by {
      forall y: nat | y < g.h ensures g.Start(t, y) + g.w <= g.Width() * g.Height() { RowInside(g, t, y); }
    }
    seq(g.h, y requires 0 <= y < g.h => raster[2 * g.Start(t, y)..2 * (g.Start(t, y) + g.w)])
  }

  /** The file after the tiles of `order` were decoded and written, starting from an empty file. */
  ghost function Draw(g: Tiling, raster: Raster, order: seq<(nat, nat)>): seq<Byte>
    requires g.Valid() && |raster| == g.Bytes() && forall t | t in order :: g.Has(t)
  {
    if order == [] then [] else
      var t := order[|order| - 1];
      Blit(Draw(g, raster, order[..|order| - 1]), TileRows(g, raster, t), g.Start(t, 0), g.h)
  }

  // ---------------------------------------------------------------- pieces of the raster in a file

  /** Byte `o` of the raster is in the file. */
  predicate Holds(file: seq<Byte>, raster: Raster, o: nat) {
    o < |file| && o < |raster| && file[o] == raster[o]
  }

  predicate HoldsAll(file: seq<Byte>, raster: Raster, lo: nat, hi: nat) {
    forall o | lo <= o < hi :: Holds(file, raster, o)
  }

  ghost predicate Extends(file: seq<Byte>, file': seq<Byte>, raster: Raster) {
    forall o :: Holds(file, raster, o) ==> Holds(file', raster, o)
  }

  /** `rows` are raster slices one pitch apart, the first at pixel `position`. */
  predicate Slices(rows: seq<seq<Byte>>, raster: Raster, position: nat) {
    forall y | 0 <= y < |rows| ::
      RowAt(position, y) + |rows[y]| <= |raster|
      && rows[y] == raster[RowAt(position, y)..RowAt(position, y) + |rows[y]|]
  }

  lemma PatchHolds(file: seq<Byte>, raster: Raster, lo: nat, hi: nat)
    requires |file| <= |raster| && lo <= hi <= |raster|
    ensures var after := Overwrite(file, lo, raster[lo..hi]);
            |after| <= |raster| && Extends(file, after, raster) && HoldsAll(after, raster, lo, hi)
  {
  }

  lemma {:induction false} BlitHolds(file: seq<Byte>, raster: Raster, rows: seq<seq<Byte>>, position: nat, n: nat)
    requires n <= |rows| && |file| <= |raster| && Slices(rows, raster, position)
    ensures |Blit(file, rows, position, n)| <= |raster|
    ensures Extends(file, Blit(file, rows, position, n), raster)
    ensures forall y | 0 <= y < n ::
              HoldsAll(Blit(file, rows, position, n), raster, RowAt(position, y), RowAt(position, y) + |rows[y]|)
  {
    if n > 0 {
      BlitHolds(file, raster, rows, position, n - 1);
      var before, after := Blit(file, rows, position, n - 1), Blit(file, rows, position, n);
      var lo := RowAt(position, n - 1);
      assert rows[n - 1] == raster[lo..lo + |rows[n - 1]|];
      PatchHolds(before, raster, lo, lo + |rows[n - 1]|);
      forall y | 0 <= y < n ensures HoldsAll(after, raster, RowAt(position, y), RowAt(position, y) + |rows[y]|) {
        if y < n - 1 { assert HoldsAll(before, raster, RowAt(position, y), RowAt(position, y) + |rows[y]|); }
      }
    }
  }

  lemma {:induction false} BlitLength(file: seq<Byte>, rows: seq<seq<Byte>>, position: nat, w: nat, n: nat)
    requires 1 <= n <= |rows| && w > 0 && forall y | 0 <= y < |rows| :: |rows[y]| == 2 * w
    ensures var end := RowAt(position, n - 1) + 2 * w;
            |Blit(file, rows, position, n)| == if end <= |file| then |file| else end
  {
    assert Blit(file, rows, position, 0) == file;
    if n > 1 { BlitLength(file, rows, position, w, n - 1); }
  }

  // ---------------------------------------------------------------- the file is the raster

  /** Rows land where the raster has them. */
  predicate RowsFit(g: Tiling) { g.Width() == PITCH || g.h == 1 }

  /** Tiles of `order` are all the tiles of the image, in any order. */
  ghost predicate Covers(g: Tiling, order: seq<(nat, nat)>) {
    (forall t | t in order :: g.Has(t)) && forall t | g.Has(t) :: t in order
  }

  predicate HoldsTile(g: Tiling, file: seq<Byte>, raster: Raster, t: (nat, nat)) {
    forall y | 0 <= y < g.h :: HoldsAll(file, raster, 2 * g.Start(t, y), 2 * (g.Start(t, y) + g.w))
  }

  lemma FittingRow(g: Tiling, t: (nat, nat), y: nat)
    requires g.Valid() && g.Has(t) && y < g.h && RowsFit(g)
    ensures 2 * g.Start(t, y) == RowAt(g.Start(t, 0), y)
  {
    RowInside(g, t, y);
  }

  lemma DrawOne(g: Tiling, raster: Raster, file: seq<Byte>, t: (nat, nat))
    requires g.Valid() && |raster| == g.Bytes() && g.Has(t) && RowsFit(g) && |file| <= |raster|
    ensures var after := Blit(file, TileRows(g, raster, t), g.Start(t, 0), g.h);
            |after| <= |raster| && Extends(file, after, raster) && HoldsTile(g, after, raster, t)
  {
    var rows, p := TileRows(g, raster, t), g.Start(t, 0);
    forall y | 0 <= y < g.h ensures 2 * g.Start(t, y) == RowAt(p, y) { FittingRow(g, t, y); }
    BlitHolds(file, raster, rows, p, g.h);
    var after := Blit(file, rows, p, g.h);
    forall y | 0 <= y < g.h ensures HoldsAll(after, raster, 2 * g.Start(t, y), 2 * (g.Start(t, y) + g.w)) {
      assert HoldsAll(after, raster, RowAt(p, y), RowAt(p, y) + |rows[y]|);
    }
  }

  lemma {:induction false} DrawHolds(g: Tiling, raster: Raster, order: seq<(nat, nat)>)
    requires g.Valid() && |raster| == g.Bytes() && RowsFit(g) && forall t | t in order :: g.Has(t)
    ensures |Draw(g, raster, order)| <= |raster|
    ensures forall t | t in order :: HoldsTile(g, Draw(g, raster, order), raster, t)
  {
    if order != [] {
      var init, last := order[..|order| - 1], order[|order| - 1];
      assert order == init + [last];
      DrawHolds(g, raster, init);
      var before, after := Draw(g, raster, init), Draw(g, raster, order);
      DrawOne(g, raster, before, last);
      forall t | t in init ensures HoldsTile(g, after, raster, t) { KeepsTile(g, before, after, raster, t); }
    }
  }

  lemma KeepsTile(g: Tiling, before: seq<Byte>, after: seq<Byte>, raster: Raster, t: (nat, nat))
    requires HoldsTile(g, before, raster, t) && Extends(before, after, raster)
    ensures HoldsTile(g, after, raster, t)
  {
    forall y | 0 <= y < g.h ensures HoldsAll(after, raster, 2 * g.Start(t, y), 2 * (g.Start(t, y) + g.w)) {
      assert HoldsAll(before, raster, 2 * g.Start(t, y), 2 * (g.Start(t, y) + g.w));
    }
  }

  lemma CoveredByte(g: Tiling, raster: Raster, file: seq<Byte>, o: nat)
    requires g.Valid() && |raster| == g.Bytes() && o < |raster|
    requires forall t | g.Has(t) :: HoldsTile(g, file, raster, t)
    ensures Holds(file, raster, o)
  {
    OwnerExists(g, o);
    var t, y := g.Owner(o), g.Line(o) % g.h;
    RowSpan(g, t, y, o);
    assert HoldsAll(file, raster, 2 * g.Start(t, y), 2 * (g.Start(t, y) + g.w));
  }

  // ---------------------------------------------------------------- the length of the file

  function FinalLength(g: Tiling): int {
    2 * (g.Width() * g.Height() + (g.h - 1) * (320 - g.Width()))
  }

  function End(g: Tiling, t: (nat, nat)): int {
    2 * (g.Start(t, 0) + (g.h - 1) * 320 + g.w)
  }

  lemma LastTileEndsLast(g: Tiling, t: (nat, nat))
    requires g.Valid() && g.Has(t)
    ensures End(g, t) <= FinalLength(g) == End(g, (g.rows - 1, g.cols - 1))
  {
    MulLe(t.0, g.rows - 1, g.h);
    MulLe(t.0 * g.h, (g.rows - 1) * g.h, g.Width());
    MulLe(t.1, g.cols - 1, g.w);
    var last := (g.rows - 1, g.cols - 1);
    RowInside(g, last, g.h - 1);
    assert last.0 * g.h + (g.h - 1) == g.Height() - 1;
    assert (g.Height() - 1) * g.Width() == g.Height() * g.Width() - g.Width();
    assert last.1 * g.w == g.Width() - g.w;
    assert (g.h - 1) * 320 == (g.h - 1) * g.Width() + (g.h - 1) * (320 - g.Width());
  }

  lemma {:induction false} DrawLength(g: Tiling, raster: Raster, order: seq<(nat, nat)>)
    requires g.Valid() && |raster| == g.Bytes() && forall t | t in order :: g.Has(t)
    ensures |Draw(g, raster, order)| <= FinalLength(g) || order == []
    ensures (g.rows - 1, g.cols - 1) in order ==> |Draw(g, raster, order)| == FinalLength(g)
  {
    if order != [] {
      var init, t := order[..|order| - 1], order[|order| - 1];
      DrawLength(g, raster, init);
      BlitLength(Draw(g, raster, init), TileRows(g, raster, t), g.Start(t, 0), g.w, g.h);
      LastTileEndsLast(g, t);
      assert order == init + [t];
    }
  }

  // ---------------------------------------------------------------- main results

  /**
   * Writing all tiles, in any order, leaves the raster in the file exactly when the image is one pitch wide or the
   * tiles are one line high.
   */
  lemma TilesMakeRasterIff(g: Tiling, raster: Raster, order: seq<(nat, nat)>)
    requires g.Valid() && |raster| == g.Bytes() && Covers(g, order)
    ensures Draw(g, raster, order) == raster <==> g.Width() == PITCH || g.h == 1
  {
    if RowsFit(g) {
      TilesMakeRaster(g, raster, order);
    } else {
      assert g.Has((g.rows - 1, g.cols - 1));
      DrawLength(g, raster, order);
      NonzeroProduct(g.h - 1, 320 - g.Width());
    }
  }

  lemma TilesMakeRaster(g: Tiling, raster: Raster, order: seq<(nat, nat)>)
    requires g.Valid() && |raster| == g.Bytes() && Covers(g, order) && RowsFit(g)
    ensures Draw(g, raster, order) == raster
  {
    DrawHolds(g, raster, order);
    var file := Draw(g, raster, order);
    forall o: nat | o < |raster| ensures Holds(file, raster, o) {
      CoveredByte(g, raster, file, o);
    }
    SameWhenHeld(file, raster);
  }

  lemma SameWhenHeld(file: seq<Byte>, raster: Raster)
    requires |file| <= |raster| && forall o: nat | o < |raster| :: Holds(file, raster, o)
    ensures file == raster
  {
    if |raster| > 0 { assert Holds(file, raster, |raster| - 1); }
    forall o: nat | o < |file| ensures file[o] == raster[o] { assert Holds(file, raster, o); }
  }

  lemma NonzeroProduct(a: int, b: int)
    requires a != 0 && b != 0
    ensures a * b != 0
  {
  }

  /** Each byte of the raster lies in exactly one row of exactly one tile, at the offset of its pixel. */
  lemma WrittenOnce(g: Tiling, t: (nat, nat), y: nat, t': (nat, nat), y': nat, o: nat)
    requires g.Valid() && g.Has(t) && y < g.h && g.Has(t') && y' < g.h
    requires 2 * g.Start(t, y) <= o < 2 * (g.Start(t, y) + g.w)
    requires 2 * g.Start(t', y') <= o < 2 * (g.Start(t', y') + g.w)
    ensures t == t' && y == y'
  {
    RowSpan(g, t, y, o);
    RowSpan(g, t', y', o);
  }

  /** The MCU loop: each decode hands over one tile and its offset, in whatever order. */
  method WriteTiles(g: Tiling, raster: Raster, order: seq<(nat, nat)>) returns (outfile: OutFile)
    requires g.Valid() && |raster| == g.Bytes() && forall t | t in order :: g.Has(t)
    ensures outfile.data == Draw(g, raster, order)
  {
    outfile := new OutFile(320 * 240 * 2);
    var i := 0;
    while i < |order|
      invariant 0 <= i <= |order|
      invariant outfile.data == Draw(g, raster, order[..i])
    {
      var buffer := TileRows(g, raster, order[i]);
      outfile.OutputToFile(buffer, g.Start(order[i], 0), g.w, g.h);
      i := i + 1;
      assert order[..i][..i - 1] == order[..i - 1];
    }
    assert order[..i] == order;
  }

  /** jpeg_decode_main, MCU branch: tile sizes come from truncating divisions, so the counts must divide the image. */
  method DecodeByMcus(width: nat, height: nat, mcusPerRow: nat, mcuRows: nat, raster: Raster, order: seq<(nat, nat)>)
    returns (outfile: OutFile)
    requires width > 0 && height > 0 && 0 < mcusPerRow && 0 < mcuRows
    requires width % mcusPerRow == 0 && height % mcuRows == 0
    requires |raster| == 2 * (width * height)
    requires Covers(Tiling(width / mcusPerRow, height / mcuRows, mcusPerRow, mcuRows), order)
    ensures outfile.data == raster <==> width == PITCH || height / mcuRows == 1
  {
    var w := width / mcusPerRow;
    var h := height / mcuRows;
    var g := Tiling(w, h, mcusPerRow, mcuRows);
    ExactTiling(width, mcusPerRow);
    ExactTiling(height, mcuRows);
    outfile := WriteTiles(g, raster, order);
    TilesMakeRasterIff(g, raster, order);
  }

  lemma ExactTiling(size: nat, count: nat)
    requires size > 0 && count > 0 && size % count == 0
    ensures size / count * count == size && size / count > 0
  {
  }

  /** jpeg_decode_main, scanline branch: correct for every width, as no row step is taken. */
  method DecodeByLines(width: nat, height: nat, raster: Raster) returns (outfile: OutFile)
    requires width > 0 && |raster| == 2 * (width * height)
    ensures outfile.data == raster
  {
    outfile := new OutFile(320 * 240 * 2);
    var scanline := 0;
    while scanline < height
      invariant 0 <= scanline <= height
      invariant 2 * (scanline * width) <= |raster|
      invariant outfile.data == raster[..2 * (scanline * width)]
    {
      MulLe(scanline + 1, height, width);
      assert (scanline + 1) * width == scanline * width + width;
      var lo, hi := 2 * (scanline * width), 2 * (scanline * width + width);
      var buffer := [raster[lo..hi]];
      scanline := scanline + 1;
      outfile.OutputToFile(buffer, (scanline - 1) * width, width, 1);
      assert Blit(raster[..lo], buffer, (scanline - 1) * width, 0) == raster[..lo];
      assert Overwrite(raster[..lo], lo, raster[lo..hi]) == raster[..hi];
    }
  }
}
