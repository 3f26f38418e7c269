/**
 The frame buffer the programs draw into, the hardware's copy of it, and the map of 16 by 16 regions that differ.
 */
module Framebuffer {
  import opened Arithmetic

  const REGION := 16

  type Octet = bv8

  // ---------- Pixels as the hardware stores them ----------

  /** The byte of a 32-bit pixel that lies at offset `k` in memory. */
  function ByteOf(p: bv32, k: nat): Octet
    requires k < 4
  {
    if k == 0 then (p & 0xFF) as bv8
    else if k == 1 then ((p >> 8) & 0xFF) as bv8
    else if k == 2 then ((p >> 16) & 0xFF) as bv8
    else ((p >> 24) & 0xFF) as bv8
  }

  /** Five bits of red, six of green, five of blue. */
  function Rgb565(p: bv32): bv32 {
    ((p & 0xF80000) >> 8) | ((p & 0x00FC00) >> 5) | ((p & 0x0000F8) >> 3)
  }

  /** A pixel in two, three or four bytes. */
  function Converted(p: bv32, bytes: nat): (s: seq<Octet>)
    requires 2 <= bytes <= 4
    ensures |s| == bytes
  {
    if bytes == 2 then [ByteOf(Rgb565(p), 0), ByteOf(Rgb565(p), 1)]
    else if bytes == 3 then [ByteOf(p, 0), ByteOf(p, 1), ByteOf(p, 2)]
    else [ByteOf(p, 0), ByteOf(p, 1), ByteOf(p, 2), ByteOf(p, 3)]
  }

  lemma BytesReadBack(p: bv32)
    ensures (ByteOf(p, 0) as bv32) + ((ByteOf(p, 1) as bv32) << 8) + ((ByteOf(p, 2) as bv32) << 16)
            + ((ByteOf(p, 3) as bv32) << 24) == p
    ensures (ByteOf(p, 0) as bv32) + ((ByteOf(p, 1) as bv32) << 8) + ((ByteOf(p, 2) as bv32) << 16) == p & 0xFFFFFF
    ensures (ByteOf(p, 0) as bv32) + ((ByteOf(p, 1) as bv32) << 8) == p & 0xFFFF
  {
  }

  /** Reading the two bytes back gives the upper bits of every colour, each in its own place. */
  lemma Rgb565Fields(p: bv32)
    ensures Rgb565(p) <= 0xFFFF
    ensures Rgb565(p) >> 11 == (p >> 19) & 0x1F
    ensures (Rgb565(p) >> 5) & 0x3F == (p >> 10) & 0x3F
    ensures Rgb565(p) & 0x1F == (p >> 3) & 0x1F
  {
  }

  /** The low byte comes first: four bytes are the pixel, three are its colours, two are the upper bits of each colour,
      blue in the low five, green in the middle six and red in the upper five. */
  lemma PixelReadsBack(p: bv32)
    ensures var s := Converted(p, 4);
      (s[0] as bv32) + ((s[1] as bv32) << 8) + ((s[2] as bv32) << 16) + ((s[3] as bv32) << 24) == p
    ensures var s := Converted(p, 3);
      (s[0] as bv32) + ((s[1] as bv32) << 8) + ((s[2] as bv32) << 16) == p & 0xFFFFFF
    ensures var s := Converted(p, 2); var word := (s[0] as bv32) + ((s[1] as bv32) << 8);
      && word & 0x1F == (p >> 3) & 0x1F && (word >> 5) & 0x3F == (p >> 10) & 0x3F && word >> 11 == (p >> 19) & 0x1F
  {
    BytesReadBack(p);
    BytesReadBack(Rgb565(p));
    Rgb565Fields(p);
  }

  // ---------- Geometry ----------

  /** A mode of `columns` by `rows` regions; `base` is the address of the hardware buffer. */
  datatype Mode = Mode(columns: nat, rows: nat, bytes: nat, pitch: nat, base: nat) {
    function Width(): nat {
      REGION * columns
    }

    predicate Valid() {
      2 <= bytes <= 4 && Width() * bytes <= pitch
    }

    function Height(): nat {
      REGION * rows
    }

    predicate Pixel(x: int, y: int) {
      0 <= x < Width() && 0 <= y < Height()
    }

    /** Where the pixel is in the frame buffer. */
    function At(x: nat, y: nat): nat {
      y * Width() + x
    }

    /** Where its bytes are in the hardware buffer. */
    function ByteAt(x: nat, y: nat): nat {
      y * pitch + x * bytes
    }

    /** Where the flag of a region is in the diff buffer. */
    function Flag(xr: nat, yr: nat): nat {
      yr * Width() / REGION + xr
    }

    lemma FlagIs(xr: nat, yr: nat)
      ensures Flag(xr, yr) == yr * columns + xr
      ensures xr < columns && yr < rows ==> Flag(xr, yr) < columns * rows
    {
      assert yr * Width() == REGION * (yr * columns);
      if xr < columns && yr < rows {
        MulStrict(yr, rows, columns);
      }
    }

    lemma FlagsDiffer(xr: nat, yr: nat, xs: nat, ys: nat)
      requires xr < columns && xs < columns && Flag(xr, yr) == Flag(xs, ys)
      ensures xr == xs && yr == ys
    {
      FlagIs(xr, yr);
      FlagIs(xs, ys);
      if yr < ys {
        MulStrict(yr, ys, columns);
      } else if ys < yr {
        MulStrict(ys, yr, columns);
      }
    }

    lemma PixelInBuffer(x: nat, y: nat)
      requires Pixel(x, y)
      ensures At(x, y) < Width() * Height()
    {
      MulStrict(y, Height(), Width());
    }

    lemma PixelsDiffer(x: nat, y: nat, u: nat, v: nat)
      requires Pixel(x, y) && Pixel(u, v) && At(x, y) == At(u, v)
      ensures x == u && y == v
    {
      if y < v {
        MulStrict(y, v, Width());
      } else if v < y {
        MulStrict(v, y, Width());
      }
    }

    /** The bytes of columns `from` to `to` of a line lie inside the line. */
    lemma LineBytes(from: nat, to: nat, y: nat)
      requires Valid() && from <= to <= Width() && y < Height()
      ensures ByteAt(from, y) <= ByteAt(to, y) <= ByteAt(0, y) + pitch <= Height() * pitch
      ensures ByteAt(to, y) == ByteAt(from, y) + (to - from) * bytes
      ensures ByteAt(0, y) == y * pitch
    {
      MulMonotone(from, to, bytes);
      MulMonotone(to, Width(), bytes);
      MulStrict(y, Height(), pitch);
      assert to * bytes == from * bytes + (to - from) * bytes;
    }

    /** A pixel's bytes are outside the bytes of a stretch of a line it is not in. */
    lemma PixelApart(x: nat, y: nat, from: nat, to: nat, line: nat)
      requires Valid() && Pixel(x, y) && from <= to <= Width() && line < Height()
      requires y != line || x < from || x >= to
      ensures ByteAt(x, y) + bytes <= ByteAt(from, line) || ByteAt(to, line) <= ByteAt(x, y)
      ensures ByteAt(x, y) + bytes <= Height() * pitch
    {
      assert x + 1 <= Width();
      hide ByteAt, Width, Height, Valid;
      LineBytes(x, x + 1, y);
      LineBytes(0, from, line);
      LineBytes(from, to, line);
      assert (x + 1 - x) * bytes == bytes;
      if y < line {
        MulStrict(y, line, pitch);
      } else if line < y {
        LineBytes(0, x, y);
        MulStrict(line, y, pitch);
      } else if x < from {
        LineBytes(x + 1, from, y);
      } else {
        LineBytes(to, x, y);
      }
    }
  }

  type Pixels = iset<(int, int)>

  /** The pixels of columns `from` to `to` of one line. */
  ghost function Line(from: nat, to: nat, y: nat): Pixels {
    iset p: (int, int) | from <= p.0 < to && p.1 == y
  }

  /** The pixels of a stretch of regions. */
  ghost function Regions(from: nat, to: nat, yr: nat): Pixels {
    iset p: (int, int) | from <= p.0 / REGION < to && p.1 / REGION == yr
  }

  // ---------- What is on the screen ----------

  ghost function PixelBytes(m: Mode, hw: seq<Octet>, x: int, y: int): seq<Octet>
    requires m.Valid() && m.Pixel(x, y) && |hw| == m.Height() * m.pitch
  {
    m.PixelApart(x, y, 0, 0, y);
    hw[m.ByteAt(x, y)..m.ByteAt(x, y) + m.bytes]
  }

  /** The pixel's bytes on the hardware are its converted value. */
  ghost predicate Shown(m: Mode, hw: seq<Octet>, fb: seq<bv32>, x: int, y: int)
    requires m.Valid() && m.Pixel(x, y) && |fb| == m.Width() * m.Height() && |hw| == m.Height() * m.pitch
  {
    m.PixelInBuffer(x, y);
    PixelBytes(m, hw, x, y) == Converted(fb[m.At(x, y)], m.bytes)
  }

  ghost predicate Sized(m: Mode, hw: seq<Octet>, fb: seq<bv32>, diff: seq<bool>) {
    m.Valid() && |fb| == m.Width() * m.Height() && |hw| == m.Height() * m.pitch && |diff| == m.columns * m.rows
  }

  predicate IsSet(m: Mode, diff: seq<bool>, xr: int, yr: int)
    requires 0 <= xr < m.columns && 0 <= yr < m.rows && |diff| == m.columns * m.rows
  {
    m.FlagIs(xr, yr);
    diff[m.Flag(xr, yr)]
  }

  predicate Dirty(m: Mode, diff: seq<bool>, x: int, y: int)
    requires m.Pixel(x, y) && |diff| == m.columns * m.rows
  {
    IsSet(m, diff, x / REGION, y / REGION)
  }

  /** Every pixel is in a dirty region, or pending, or shown. */
  ghost predicate Coherent(m: Mode, hw: seq<Octet>, fb: seq<bv32>, diff: seq<bool>, pending: Pixels) {
    Sized(m, hw, fb, diff) &&
    forall x: int, y: int | m.Pixel(x, y) && (x, y) !in pending && !Dirty(m, diff, x, y) :: Shown(m, hw, fb, x, y)
  }

  function PaddingAt(m: Mode, y: nat, k: nat): nat {
    y * m.pitch + k
  }

  /** No byte that belongs to no pixel was ever written. */
  ghost predicate PaddingClear(m: Mode, hw: seq<Octet>)
    requires m.Valid() && |hw| == m.Height() * m.pitch
  {
    forall y: nat, k: nat | y < m.Height() && m.Width() * m.bytes <= k < m.pitch ::
      PaddingAt(m, y, k) < |hw| && hw[PaddingAt(m, y, k)] == 0
  }

  // ---------- Single steps keep it coherent ----------

  lemma WriteKeeps(m: Mode, hw: seq<Octet>, fb: seq<bv32>, diff: seq<bool>, pending: Pixels, x: nat, y: nat,
      color: bv32)
    requires Coherent(m, hw, fb, diff, pending) && m.Pixel(x, y) && m.At(x, y) < |fb|
    ensures Coherent(m, hw, fb[m.At(x, y) := color], diff, pending + iset{(x, y)})
  {
    hide Dirty, Converted, Mode.At, Mode.ByteAt, Mode.Valid;
    var fb' := fb[m.At(x, y) := color];
    forall u: int, v: int | m.Pixel(u, v) && (u, v) !in pending + iset{(x, y)} && !Dirty(m, diff, u, v)
      ensures Shown(m, hw, fb', u, v)
    {
      assert Shown(m, hw, fb, u, v);
      m.PixelInBuffer(u, v);
      if m.At(u, v) == m.At(x, y) {
        m.PixelsDiffer(u, v, x, y);
      }
    }
  }

  lemma MarkKeeps(m: Mode, hw: seq<Octet>, fb: seq<bv32>, diff: seq<bool>, pending: Pixels, xr: nat, yr: nat)
    requires Coherent(m, hw, fb, diff, pending) && xr < m.columns && yr < m.rows && m.Flag(xr, yr) < |diff|
    ensures Coherent(m, hw, fb, diff[m.Flag(xr, yr) := true], pending - Regions(xr, xr + 1, yr))
  {
    hide Converted, Mode.At, Mode.ByteAt, Mode.Valid, Mode.Flag, Shown;
    var diff', pending' := diff[m.Flag(xr, yr) := true], pending - Regions(xr, xr + 1, yr);
    forall u: int, v: int | m.Pixel(u, v) && (u, v) !in pending' && !Dirty(m, diff', u, v)
      ensures Shown(m, hw, fb, u, v)
    {
      m.FlagIs(u / REGION, v / REGION);
      assert !Dirty(m, diff, u, v);
      assert (u, v) !in pending;
    }
  }

  lemma ResetKeeps(m: Mode, hw: seq<Octet>, fb: seq<bv32>, diff: seq<bool>, pending: Pixels, xr: nat, yr: nat)
    requires Coherent(m, hw, fb, diff, pending) && xr < m.columns && yr < m.rows && m.Flag(xr, yr) < |diff|
    ensures Coherent(m, hw, fb, diff[m.Flag(xr, yr) := false], pending + Regions(xr, xr + 1, yr))
  {
    hide Converted, Mode.At, Mode.ByteAt, Mode.Valid, Mode.Flag, Shown;
    var diff', pending' := diff[m.Flag(xr, yr) := false], pending + Regions(xr, xr + 1, yr);
    forall u: int, v: int | m.Pixel(u, v) && (u, v) !in pending' && !Dirty(m, diff', u, v)
      ensures Shown(m, hw, fb, u, v)
    {
      m.FlagIs(u / REGION, v / REGION);
      if m.Flag(u / REGION, v / REGION) == m.Flag(xr, yr) {
        m.FlagsDiffer(u / REGION, v / REGION, xr, yr);
      }
      assert !Dirty(m, diff, u, v);
    }
  }

  /** The bytes outside a stretch are the same. */
  ghost predicate SameOutside(hw: seq<Octet>, hw': seq<Octet>, lo: nat, hi: nat) {
    lo <= hi <= |hw| == |hw'| && hw'[..lo] == hw[..lo] && hw'[hi..] == hw[hi..]
  }

  ghost predicate RunPixel(hw: seq<Octet>, at: nat, pixels: seq<bv32>, bytes: nat, i: nat)
    requires 2 <= bytes <= 4 && i < |pixels|
  {
    at + i * bytes + bytes <= |hw| && hw[at + i * bytes..at + i * bytes + bytes] == Converted(pixels[i], bytes)
  }

  /** A stretch of converted pixels, one behind the other. */
  ghost predicate Run(hw: seq<Octet>, at: nat, pixels: seq<bv32>, bytes: nat)
    requires 2 <= bytes <= 4
  {
    forall i: nat | i < |pixels| :: RunPixel(hw, at, pixels, bytes, i)
  }

  lemma SliceOfDrop(s: seq<Octet>, lo: nat, i: nat, j: nat)
    requires lo <= i <= j <= |s|
    ensures s[i..j] == s[lo..][i - lo..j - lo]
  {
  }

  lemma SameSlice(hw: seq<Octet>, hw': seq<Octet>, lo: nat, hi: nat, i: nat, j: nat)
    requires SameOutside(hw, hw', lo, hi) && i <= j <= |hw| && (j <= lo || hi <= i)
    ensures hw'[i..j] == hw[i..j]
  {
    if j <= lo {
      assert hw'[i..j] == hw'[..lo][i..j] && hw[i..j] == hw[..lo][i..j];
    } else {
      SliceOfDrop(hw, hi, i, j);
      SliceOfDrop(hw', hi, i, j);
    }
  }

  lemma DrawnIsShown(m: Mode, hw: seq<Octet>, fb: seq<bv32>, from: nat, to: nat, y: nat, x: nat)
    requires m.Valid() && |fb| == m.Width() * m.Height() && |hw| == m.Height() * m.pitch
    requires from <= x < to <= m.Width() && y < m.Height() && m.At(from, y) + (to - from) <= |fb|
    requires Run(hw, m.ByteAt(from, y), fb[m.At(from, y)..m.At(from, y) + (to - from)], m.bytes)
    ensures Shown(m, hw, fb, x, y)
  {
    hide Converted;
    var i: nat := x - from;
    assert RunPixel(hw, m.ByteAt(from, y), fb[m.At(from, y)..m.At(from, y) + (to - from)], m.bytes, i);
    m.LineBytes(from, x, y);
  }

  lemma BytesStay(m: Mode, hw: seq<Octet>, hw': seq<Octet>, from: nat, to: nat, line: nat, x: nat, y: nat)
    requires m.Valid() && m.Pixel(x, y) && |hw| == |hw'| == m.Height() * m.pitch
    requires from <= to <= m.Width() && line < m.Height() && (y != line || x < from || x >= to)
    requires SameOutside(hw, hw', m.ByteAt(from, line), m.ByteAt(to, line))
    ensures PixelBytes(m, hw', x, y) == PixelBytes(m, hw, x, y)
  {
    hide SameOutside;
    m.PixelApart(x, y, from, to, line);
    SameSlice(hw, hw', m.ByteAt(from, line), m.ByteAt(to, line), m.ByteAt(x, y), m.ByteAt(x, y) + m.bytes);
  }

  lemma DrawKeeps(m: Mode, hw: seq<Octet>, hw': seq<Octet>, fb: seq<bv32>, diff: seq<bool>, pending: Pixels,
      from: nat, to: nat, y: nat)
    requires Coherent(m, hw, fb, diff, pending)
    requires from <= to <= m.Width() && y < m.Height() && m.At(from, y) + (to - from) <= |fb|
    requires SameOutside(hw, hw', m.ByteAt(from, y), m.ByteAt(to, y))
    requires Run(hw', m.ByteAt(from, y), fb[m.At(from, y)..m.At(from, y) + (to - from)], m.bytes)
    ensures Coherent(m, hw', fb, diff, pending - Line(from, to, y))
  {
    hide Dirty, Converted, PixelBytes, Mode.At, Mode.ByteAt, Run;
    assert Sized(m, hw', fb, diff);
    hide SameOutside;
    forall u: int, v: int | m.Pixel(u, v) && (u, v) !in pending - Line(from, to, y) && !Dirty(m, diff, u, v)
      ensures Shown(m, hw', fb, u, v)
    {
      if v == y && from <= u < to {
        DrawnIsShown(m, hw', fb, from, to, y, u);
      } else {
        assert (u, v) !in pending;
        assert Shown(m, hw, fb, u, v);
        BytesStay(m, hw, hw', from, to, y, u, v);
      }
    }
  }

  /** Only pixels of these regions have other bytes than before. */
  ghost predicate OnlyRegions(m: Mode, hw: seq<Octet>, hw': seq<Octet>, from: nat, to: nat, yr: nat)
    requires m.Valid() && |hw| == |hw'| == m.Height() * m.pitch
  {
    forall x: int, y: int | m.Pixel(x, y) && (x, y) !in Regions(from, to, yr) ::
      PixelBytes(m, hw', x, y) == PixelBytes(m, hw, x, y)
  }

  /** Only pixels of the dirty regions have other bytes than before. */
  ghost predicate OnlyDirty(m: Mode, hw: seq<Octet>, hw': seq<Octet>, diff: seq<bool>)
    requires m.Valid() && |hw| == |hw'| == m.Height() * m.pitch && |diff| == m.columns * m.rows
  {
    forall x: int, y: int | m.Pixel(x, y) && !Dirty(m, diff, x, y) ::
      PixelBytes(m, hw', x, y) == PixelBytes(m, hw, x, y)
  }

  lemma LineInRegions(m: Mode, h: seq<Octet>, hw: seq<Octet>, hw': seq<Octet>, from: nat, to: nat, yr: nat, line: nat)
    requires m.Valid() && |h| == |hw| == |hw'| == m.Height() * m.pitch
    requires from <= to <= m.columns && line / REGION == yr && line < m.Height()
    requires OnlyRegions(m, h, hw, from, to, yr)
    requires SameOutside(hw, hw', m.ByteAt(REGION * from, line), m.ByteAt(REGION * to, line))
    ensures OnlyRegions(m, h, hw', from, to, yr)
  {
    hide SameOutside, Mode.ByteAt, PixelBytes;
    forall x: int, y: int | m.Pixel(x, y) && (x, y) !in Regions(from, to, yr)
      ensures PixelBytes(m, hw', x, y) == PixelBytes(m, h, x, y)
    {
      BytesStay(m, hw, hw', REGION * from, REGION * to, line, x, y);
    }
  }

  lemma RegionsAreDirty(m: Mode, h: seq<Octet>, hw: seq<Octet>, hw': seq<Octet>, diff: seq<bool>, from: nat, to: nat,
      yr: nat)
    requires m.Valid() && |h| == |hw| == |hw'| == m.Height() * m.pitch && |diff| == m.columns * m.rows
    requires from <= to <= m.columns && yr < m.rows
    requires forall xr: nat | from <= xr < to :: IsSet(m, diff, xr, yr)
    requires OnlyDirty(m, h, hw, diff) && OnlyRegions(m, hw, hw', from, to, yr)
    ensures OnlyDirty(m, h, hw', diff)
  {
    hide PixelBytes, Mode.Flag, Mode.Valid;
    forall x: int, y: int | m.Pixel(x, y) && !Dirty(m, diff, x, y)
      ensures PixelBytes(m, hw', x, y) == PixelBytes(m, h, x, y)
    {
      assert !IsSet(m, diff, x / REGION, y / REGION);
      assert (x, y) !in Regions(from, to, yr);
    }
  }

  /** A padding byte is outside every stretch of a line. */
  lemma PaddingApart(m: Mode, from: nat, to: nat, line: nat, y: nat, k: nat)
    requires m.Valid() && from <= to <= m.Width() && line < m.Height() && y < m.Height()
    requires m.Width() * m.bytes <= k < m.pitch
    ensures var i := PaddingAt(m, y, k); i < m.ByteAt(from, line) || m.ByteAt(to, line) <= i
    ensures PaddingAt(m, y, k) < m.Height() * m.pitch
    ensures m.ByteAt(from, line) <= m.ByteAt(to, line) <= m.Height() * m.pitch
  {
    m.LineBytes(from, to, line);
    m.LineBytes(0, to, line);
    MulMonotone(to, m.Width(), m.bytes);
    MulStrict(y, m.Height(), m.pitch);
    if y < line {
      m.LineBytes(0, from, line);
      MulStrict(y, line, m.pitch);
    } else if line < y {
      MulStrict(line, y, m.pitch);
    }
  }

  lemma PaddingStays(m: Mode, hw: seq<Octet>, hw': seq<Octet>, from: nat, to: nat, line: nat)
    requires m.Valid() && |hw| == |hw'| == m.Height() * m.pitch && PaddingClear(m, hw)
    requires from <= to <= m.Width() && line < m.Height()
    requires SameOutside(hw, hw', m.ByteAt(from, line), m.ByteAt(to, line))
    ensures PaddingClear(m, hw')
  {
    forall y: nat, k: nat | y < m.Height() && m.Width() * m.bytes <= k < m.pitch
      ensures PaddingAt(m, y, k) < |hw'| && hw'[PaddingAt(m, y, k)] == 0
    {
      assert hw[PaddingAt(m, y, k)] == 0;
      hide SameOutside, PaddingAt, Mode.ByteAt, PaddingClear;
      PaddingApart(m, from, to, line, y, k);
      var i := PaddingAt(m, y, k);
      SameSlice(hw, hw', m.ByteAt(from, line), m.ByteAt(to, line), i, i + 1);
      assert hw'[i] == hw'[i..i + 1][0] && hw[i] == hw[i..i + 1][0];
    }
  }
}
