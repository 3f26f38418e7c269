/**
 Marking and flushing regions, on the buffers themselves. Whatever is drawn, marked and flushed in whatever order, what
 is neither marked nor still unannounced is on the screen.
 */
module Screen {
  import opened Arithmetic
  import opened Framebuffer

  // ---------- The three converters ----------

  lemma SliceOfPrefix<T>(s: seq<T>, n: nat, a: nat, b: nat)
    requires a <= b <= n <= |s|
    ensures s[..n][a..b] == s[a..b]
  {
  }

  lemma SamePrefixSlice<T>(s: seq<T>, t: seq<T>, n: nat, a: nat, b: nat)
    requires a <= b <= n <= |s| == |t| && s[..n] == t[..n]
    ensures s[a..b] == t[a..b]
  {
    SliceOfPrefix(s, n, a, b);
    SliceOfPrefix(t, n, a, b);
  }

  lemma RunGrows(h: seq<Octet>, h': seq<Octet>, at: nat, pixels: seq<bv32>, bytes: nat, i: nat)
    requires 2 <= bytes <= 4 && i < |pixels| && |h| == |h'| && Run(h, at, pixels[..i], bytes)
    requires at + i * bytes + bytes <= |h| && h'[..at + i * bytes] == h[..at + i * bytes]
    requires h'[at + i * bytes..at + i * bytes + bytes] == Converted(pixels[i], bytes)
    ensures Run(h', at, pixels[..i + 1], bytes)
  {
    hide Converted;
    var more := pixels[..i + 1];
    forall j: nat | j < |more| ensures RunPixel(h', at, more, bytes, j) {
      if j < i {
        assert RunPixel(h, at, pixels[..i], bytes, j);
        MulStrict(j, i, bytes);
        SamePrefixSlice(h, h', at + i * bytes, at + j * bytes, at + j * bytes + bytes);
      }
    }
  }

  lemma NoRun(h: seq<Octet>, at: nat, pixels: seq<bv32>, bytes: nat)
    requires 2 <= bytes <= 4
    ensures Run(h, at, pixels[..0], bytes)
  {
  }

  /** A change inside a stretch leaves the outside of the stretch as it was. */
  lemma Inside(h: seq<Octet>, h': seq<Octet>, h'': seq<Octet>, lo: nat, hi: nat, a: nat, b: nat)
    requires SameOutside(h, h', lo, hi) && SameOutside(h', h'', a, b) && lo <= a && b <= hi
    ensures SameOutside(h, h'', lo, hi)
  {
    assert h''[..lo] == h''[..a][..lo] && h'[..lo] == h'[..a][..lo];
    assert h''[hi..] == h''[b..][hi - b..] && h'[hi..] == h'[b..][hi - b..];
  }

  method Store16(hw: array<Octet>, at: nat, v0: Octet, v1: Octet)
    requires at + 2 <= hw.Length
    modifies hw
    ensures SameOutside(old(hw[..]), hw[..], at, at + 2) && hw[..][at..at + 2] == [v0, v1]
  {
    hw[at], hw[at + 1] := v0, v1;
  }

  /** Sixteen bits a pixel. */
  method ConvertRgb565(src: array<bv32>, from: nat, hw: array<Octet>, at: nat, count: nat)
    requires from + count <= src.Length && at + 2 * count <= hw.Length
    modifies hw
    ensures SameOutside(old(hw[..]), hw[..], at, at + 2 * count)
    ensures Run(hw[..], at, src[from..from + count], 2)
  {
    hide Run;
    ghost var pixels := src[from..from + count];
    NoRun(hw[..], at, pixels, 2);
    var i := 0;
    while i < count
      invariant 0 <= i <= count
      invariant SameOutside(old(hw[..]), hw[..], at, at + 2 * count)
      invariant Run(hw[..], at, pixels[..i], 2)
    {
      ghost var h := hw[..];
      var p := src[from + i];
      Store16(hw, at + 2 * i, ByteOf(Rgb565(p), 0), ByteOf(Rgb565(p), 1));
      assert hw[..][at + i * 2..at + i * 2 + 2] == Converted(pixels[i], 2);
      RunGrows(h, hw[..], at, pixels, 2, i);
      Inside(old(hw[..]), h, hw[..], at, at + 2 * count, at + 2 * i, at + 2 * i + 2);
      i := i + 1;
    }
    assert pixels[..count] == pixels;
  }

  method Store32(hw: array<Octet>, at: nat, p: bv32)
    requires at + 4 <= hw.Length
    modifies hw
    ensures SameOutside(old(hw[..]), hw[..], at, at + 4)
    ensures hw[..][at..at + 4] == [ByteOf(p, 0), ByteOf(p, 1), ByteOf(p, 2), ByteOf(p, 3)]
  {
    hide ByteOf;
    hw[at], hw[at + 1], hw[at + 2], hw[at + 3] := ByteOf(p, 0), ByteOf(p, 1), ByteOf(p, 2), ByteOf(p, 3);
  }

  /** One pixel of three bytes. The store of four bytes spills into the next pixel, which is written after it. */
  method StoreRgb888(hw: array<Octet>, at: nat, p: bv32, odd: bool, last: bool)
    requires at + (if odd || last then 3 else 4) <= hw.Length
    modifies hw
    ensures SameOutside(old(hw[..]), hw[..], at, at + if odd || last then 3 else 4)
    ensures hw[..][at..at + 3] == Converted(p, 3)
  {
    hide ByteOf;
    if odd {
      hw[at] := ByteOf(p, 0);
      hw[at + 1], hw[at + 2] := ByteOf(p, 1), ByteOf(p, 2);
    } else if !last {
      Store32(hw, at, p);
      assert hw[..][at..at + 3] == hw[..][at..at + 4][..3];
    } else {
      hw[at], hw[at + 1] := ByteOf(p, 0), ByteOf(p, 1);
      hw[at + 2] := ByteOf(p, 2);
    }
  }

  /** Twenty-four bits a pixel; the stores depend on whether the address is odd. */
  method ConvertRgb888(src: array<bv32>, from: nat, hw: array<Octet>, at: nat, count: nat, base: nat)
    requires from + count <= src.Length && at + 3 * count <= hw.Length
    modifies hw
    ensures SameOutside(old(hw[..]), hw[..], at, at + 3 * count)
    ensures Run(hw[..], at, src[from..from + count], 3)
  {
    hide Run;
    ghost var pixels := src[from..from + count];
    NoRun(hw[..], at, pixels, 3);
    var i := 0;
    while i < count
      invariant 0 <= i <= count
      invariant SameOutside(old(hw[..]), hw[..], at, at + 3 * count)
      invariant Run(hw[..], at, pixels[..i], 3)
    {
      ghost var h := hw[..];
      var odd, last := (base + at + 3 * i) % 2 == 1, i + 1 == count;
      StoreRgb888(hw, at + 3 * i, src[from + i], odd, last);
      RunGrows(h, hw[..], at, pixels, 3, i);
      Inside(old(hw[..]), h, hw[..], at, at + 3 * count, at + 3 * i, at + 3 * i + if odd || last then 3 else 4);
      i := i + 1;
    }
    assert pixels[..count] == pixels;
  }

  /** Thirty-two bits a pixel: a copy. */
  method ConvertRgbx8888(src: array<bv32>, from: nat, hw: array<Octet>, at: nat, count: nat)
    requires from + count <= src.Length && at + 4 * count <= hw.Length
    modifies hw
    ensures SameOutside(old(hw[..]), hw[..], at, at + 4 * count)
    ensures Run(hw[..], at, src[from..from + count], 4)
  {
    hide Run, ByteOf;
    ghost var pixels := src[from..from + count];
    NoRun(hw[..], at, pixels, 4);
    var i := 0;
    while i < count
      invariant 0 <= i <= count
      invariant SameOutside(old(hw[..]), hw[..], at, at + 4 * count)
      invariant Run(hw[..], at, pixels[..i], 4)
    {
      ghost var h := hw[..];
      Store32(hw, at + 4 * i, src[from + i]);
      assert Converted(pixels[i], 4) == hw[..][at + i * 4..at + i * 4 + 4];
      RunGrows(h, hw[..], at, pixels, 4, i);
      Inside(old(hw[..]), h, hw[..], at, at + 4 * count, at + 4 * i, at + 4 * i + 4);
      i := i + 1;
    }
    assert pixels[..count] == pixels;
  }

  /** The converter the mode was set up with. */
  method ConvertColor(src: array<bv32>, from: nat, hw: array<Octet>, at: nat, count: nat, bytes: nat, base: nat)
    requires 2 <= bytes <= 4 && from + count <= src.Length && at + bytes * count <= hw.Length
    modifies hw
    ensures SameOutside(old(hw[..]), hw[..], at, at + bytes * count)
    ensures Run(hw[..], at, src[from..from + count], bytes)
  {
    hide Run, SameOutside;
    if bytes == 3 {
      ConvertRgb888(src, from, hw, at, count, base);
    } else if bytes == 4 {
      ConvertRgbx8888(src, from, hw, at, count);
    } else {
      ConvertRgb565(src, from, hw, at, count);
    }
  }

  // ---------- Regions and their pixels ----------

  /** The pixels of a block of regions. */
  ghost function Block(from: nat, to: nat, first: nat, end: nat): Pixels {
    iset p: (int, int) | from <= p.0 / REGION < to && first <= p.1 / REGION < end
  }

  /** The pixels of every region that an invalidation marks: from the first to before the last, rounded outwards. */
  ghost function Marked(x0: nat, y0: nat, x1: nat, y1: nat): Pixels {
    Block(x0 / REGION, (x1 + REGION - 1) / REGION, y0 / REGION, (y1 + REGION - 1) / REGION)
  }

  /** The upper bounds are exclusive: all of the rectangle before them is marked. */
  lemma MarksRectangle(x0: nat, y0: nat, x1: nat, y1: nat, x: nat, y: nat)
    requires x0 <= x < x1 && y0 <= y < y1
    ensures (x, y) in Marked(x0, y0, x1, y1)
  {
  }

  lemma InSameRegion(x0: nat, x1: nat, x: nat) returns (u: nat)
    requires x0 / 16 <= x / 16 < (x1 + 15) / 16
    ensures x0 < x1 ==> x0 <= u < x1 && u / 16 == x / 16
  {
    u := if x0 / 16 == x / 16 then x0 else 16 * (x / 16);
  }

  /** And nothing else: a pixel is marked exactly if a pixel of the rectangle shares its region of 16 by 16. */
  lemma MarksOnlyRegions(x0: nat, y0: nat, x1: nat, y1: nat, x: nat, y: nat)
    requires x0 < x1 && y0 < y1
    ensures (x, y) in Marked(x0, y0, x1, y1) <==>
            exists u: nat, v: nat :: x0 <= u < x1 && y0 <= v < y1 && x / 16 == u / 16 && y / 16 == v / 16
  {
    if (x, y) in Marked(x0, y0, x1, y1) {
      var u := InSameRegion(x0, x1, x);
      var v := InSameRegion(y0, y1, y);
      assert x / 16 == u / 16 && y / 16 == v / 16;
    }
  }

  /** A caller that names the last pixel instead has it marked exactly when neither coordinate starts a region. */
  lemma MarksLastPixel(x0: nat, y0: nat, x1: nat, y1: nat)
    requires x0 <= x1 && y0 <= y1
    ensures (x1, y1) in Marked(x0, y0, x1, y1) <==> x1 % 16 != 0 && y1 % 16 != 0
  {
  }

  /** The pixels of the dirty regions. */
  ghost function DirtyPixels(m: Mode, diff: seq<bool>): Pixels
    requires |diff| == m.columns * m.rows
  {
    iset p: (int, int) | m.Pixel(p.0, p.1) && Dirty(m, diff, p.0, p.1)
  }

  predicate InBlock(x0: nat, y0: nat, x1: nat, y1: nat, xr: nat, yr: nat) {
    x0 / REGION <= xr < (x1 + REGION - 1) / REGION && y0 / REGION <= yr < (y1 + REGION - 1) / REGION
  }

  function Abs(x: int): nat {
    if x < 0 then -x else x
  }

  /** The flags of a stretch of regions have this value, the others the one they had. */
  ghost predicate Stretch(m: Mode, d: seq<bool>, d': seq<bool>, from: nat, to: nat, yr: nat, v: bool) {
    |d| == |d'| == m.columns * m.rows &&
    forall xs: nat, ys: nat | xs < m.columns && ys < m.rows ::
      IsSet(m, d', xs, ys) == if ys == yr && from <= xs < to then v else IsSet(m, d, xs, ys)
  }

  lemma SetOne(m: Mode, d0: seq<bool>, d: seq<bool>, from: nat, xr: nat, yr: nat, v: bool)
    requires |d0| == |d| == m.columns * m.rows && from <= xr < m.columns && yr < m.rows && m.Flag(xr, yr) < |d|
    requires Stretch(m, d0, d, from, xr, yr, v)
    ensures Stretch(m, d0, d[m.Flag(xr, yr) := v], from, xr + 1, yr, v)
  {
    var d' := d[m.Flag(xr, yr) := v];
    forall xs: nat, ys: nat | xs < m.columns && ys < m.rows
      ensures IsSet(m, d', xs, ys) == if ys == yr && from <= xs < xr + 1 then v else IsSet(m, d0, xs, ys)
    {
      assert IsSet(m, d, xs, ys) == if ys == yr && from <= xs < xr then v else IsSet(m, d0, xs, ys);
      m.FlagIs(xs, ys);
      if m.Flag(xs, ys) == m.Flag(xr, yr) {
        m.FlagsDiffer(xs, ys, xr, yr);
      }
    }
  }

  /** The pixels of some lines of a stretch of regions. */
  ghost function Lines(from: nat, to: nat, first: nat, end: nat): Pixels {
    iset p: (int, int) | REGION * from <= p.0 < REGION * to && first <= p.1 < end
  }

  lemma NothingChanged(m: Mode, hw: seq<Octet>, from: nat, to: nat, yr: nat)
    requires m.Valid() && |hw| == m.Height() * m.pitch
    ensures OnlyRegions(m, hw, hw, from, to, yr)
  {
  }

  lemma NothingDrawn(m: Mode, hw: seq<Octet>, diff: seq<bool>)
    requires m.Valid() && |hw| == m.Height() * m.pitch && |diff| == m.columns * m.rows
    ensures OnlyDirty(m, hw, hw, diff)
  {
  }

  // ---------- How far a flush has come: the rows before `yr`, and `xr` regions of that row ----------

  predicate Passed(xr: nat, yr: nat, xs: int, ys: int) {
    ys < yr || (ys == yr && xs < xr)
  }

  /** The dirty pixels that were drawn. */
  ghost function Flushed(m: Mode, d: seq<bool>, xr: nat, yr: nat): Pixels
    requires |d| == m.columns * m.rows
  {
    iset p: (int, int) | p in DirtyPixels(m, d) && Passed(xr, yr, p.0 / REGION, p.1 / REGION)
  }

  /** The flags that were taken back. */
  ghost predicate Cleared(m: Mode, d: seq<bool>, d': seq<bool>, xr: nat, yr: nat) {
    |d| == |d'| == m.columns * m.rows &&
    forall xs: nat, ys: nat | xs < m.columns && ys < m.rows ::
      IsSet(m, d', xs, ys) == (IsSet(m, d, xs, ys) && !Passed(xr, yr, xs, ys))
  }

  lemma NextRow(m: Mode, d: seq<bool>, d': seq<bool>, yr: nat)
    requires Cleared(m, d, d', m.columns, yr)
    ensures Cleared(m, d, d', 0, yr + 1)
    ensures Flushed(m, d, m.columns, yr) == Flushed(m, d, 0, yr + 1)
  {
    hide IsSet;
  }

  lemma AlikeBefore(m: Mode, d: seq<bool>, d': seq<bool>, xr: nat, yr: nat, n: nat, v: bool)
    requires Cleared(m, d, d', xr, yr) && xr + n <= m.columns && yr < m.rows
    requires forall x: nat | xr <= x < xr + n :: IsSet(m, d', x, yr) == v
    ensures forall x: nat | xr <= x < xr + n :: IsSet(m, d, x, yr) == v
  {
    hide IsSet;
    forall x: nat | xr <= x < xr + n ensures IsSet(m, d, x, yr) == v {
      assert IsSet(m, d', x, yr) == (IsSet(m, d, x, yr) && !Passed(xr, yr, x, yr));
    }
  }

  lemma SkipRow(m: Mode, d: seq<bool>, d': seq<bool>, xr: nat, yr: nat, n: nat)
    requires Cleared(m, d, d', xr, yr) && xr + n <= m.columns && yr < m.rows
    requires forall x: nat | xr <= x < xr + n :: !IsSet(m, d, x, yr)
    ensures Cleared(m, d, d', xr + n, yr)
    ensures Flushed(m, d, xr + n, yr) == Flushed(m, d, xr, yr)
  {
    hide IsSet;
  }

  lemma ClearRow(m: Mode, d: seq<bool>, d': seq<bool>, d'': seq<bool>, xr: nat, yr: nat, n: nat)
    requires Cleared(m, d, d', xr, yr) && xr + n <= m.columns && yr < m.rows
    requires forall x: nat | xr <= x < xr + n :: IsSet(m, d, x, yr)
    requires Stretch(m, d', d'', xr, xr + n, yr, false)
    ensures Cleared(m, d, d'', xr + n, yr)
    ensures forall p: Pixels :: p - Flushed(m, d, xr, yr) - Regions(xr, xr + n, yr) == p - Flushed(m, d, xr + n, yr)
  {
    hide IsSet;
  }

  // ---------- The whole picture ----------

  /** The line a byte of the hardware buffer is in, and where in the line. */
  function LineOf(m: Mode, i: nat): nat {
    if m.pitch == 0 then 0 else i / m.pitch
  }

  function OffsetOf(m: Mode, i: nat): nat {
    if m.pitch == 0 then 0 else i % m.pitch
  }

  lemma BytesInPixel(k: nat, bytes: nat)
    requires 2 <= bytes <= 4
    ensures k == k / bytes * bytes + k % bytes
  {
  }

  lemma PlaceInLine(m: Mode, i: nat)
    requires m.Valid() && i < m.Height() * m.pitch
    ensures var y, k := LineOf(m, i), OffsetOf(m, i);
      y < m.Height() && k < m.pitch && i == y * m.pitch + k && k == k / m.bytes * m.bytes + k % m.bytes &&
      (k < m.Width() * m.bytes ==> m.Pixel(k / m.bytes, y))
  {
    BlockOf(i, m.Height(), m.pitch);
    var k := OffsetOf(m, i);
    BytesInPixel(k, m.bytes);
    if k < m.Width() * m.bytes {
      BlockOf(k, m.Width(), m.bytes);
    }
  }

  /** What a redraw of everything leaves in byte `i` of the hardware buffer. */
  function PictureByte(m: Mode, fb: seq<bv32>, i: nat): Octet
    requires m.Valid() && |fb| == m.Width() * m.Height() && i < m.Height() * m.pitch
  {
    var y, k := LineOf(m, i), OffsetOf(m, i);
    if k >= m.Width() * m.bytes then 0 else
      PlaceInLine(m, i);
      m.PixelInBuffer(k / m.bytes, y);
      Converted(fb[m.At(k / m.bytes, y)], m.bytes)[k % m.bytes]
  }

  function Picture(m: Mode, fb: seq<bv32>): (s: seq<Octet>)
    requires m.Valid() && |fb| == m.Width() * m.Height()
  {
    seq(m.Height() * m.pitch, i requires 0 <= i < m.Height() * m.pitch => PictureByte(m, fb, i))
  }

  lemma PixelOfByte(width: nat, bytes: nat, y: nat, k: nat, i: nat)
    requires bytes > 0 && i == y * (width * bytes) + k
    ensures i / bytes == y * width + k / bytes && i % bytes == k % bytes
  {
    DivMod(k, bytes);
    assert y * (width * bytes) == y * width * bytes;
    assert (y * width + k / bytes) * bytes == y * width * bytes + k / bytes * bytes;
    DivModUnique(i, y * width + k / bytes, k % bytes, bytes);
  }

  /** Without padding the picture is the pixels of the frame buffer one after the other. */
  lemma TightPicture(m: Mode, fb: seq<bv32>, i: nat)
    requires m.Valid() && m.pitch == m.Width() * m.bytes && |fb| == m.Width() * m.Height() && i < m.Height() * m.pitch
    ensures i / m.bytes < |fb| && Picture(m, fb)[i] == Converted(fb[i / m.bytes], m.bytes)[i % m.bytes]
  {
    PlaceInLine(m, i);
    var y, k := LineOf(m, i), OffsetOf(m, i);
    PixelOfByte(m.Width(), m.bytes, y, k, i);
    m.PixelInBuffer(k / m.bytes, y);
    hide Converted;
  }

  lemma PaddingIs(m: Mode, hw: seq<Octet>, i: nat, y: nat, k: nat)
    requires m.Valid() && |hw| == m.Height() * m.pitch && PaddingClear(m, hw) && i < |hw|
    requires y < m.Height() && m.Width() * m.bytes <= k < m.pitch && i == y * m.pitch + k
    ensures hw[i] == 0
  {
    assert hw[PaddingAt(m, y, k)] == 0;
  }

  lemma PaddingOfPicture(m: Mode, fb: seq<bv32>, i: nat)
    requires m.Valid() && |fb| == m.Width() * m.Height() && i < m.Height() * m.pitch
    requires OffsetOf(m, i) >= m.Width() * m.bytes
    ensures PictureByte(m, fb, i) == 0
  {
    hide Mode.At, Converted, LineOf, OffsetOf;
  }

  lemma ByteIsShown(m: Mode, hw: seq<Octet>, fb: seq<bv32>, i: nat, x: int)
    requires m.Valid() && |fb| == m.Width() * m.Height() && |hw| == m.Height() * m.pitch && i < |hw|
    requires x == OffsetOf(m, i) / m.bytes && m.Pixel(x, LineOf(m, i)) && OffsetOf(m, i) < m.Width() * m.bytes
    requires Shown(m, hw, fb, x, LineOf(m, i))
    ensures hw[i] == PictureByte(m, fb, i)
  {
    hide Mode.At, Converted, LineOf, OffsetOf;
    PlaceInLine(m, i);
    var y, b := LineOf(m, i), OffsetOf(m, i) % m.bytes;
    m.PixelApart(x, y, 0, 0, y);
    assert i == m.ByteAt(x, y) + b;
    hide Mode.ByteAt;
    assert hw[i] == PixelBytes(m, hw, x, y)[b];
  }

  lemma ByteIsPicture(m: Mode, hw: seq<Octet>, fb: seq<bv32>, i: nat)
    requires m.Valid() && |fb| == m.Width() * m.Height() && |hw| == m.Height() * m.pitch && PaddingClear(m, hw)
    requires i < |hw| && forall x: int, y: int | m.Pixel(x, y) :: Shown(m, hw, fb, x, y)
    ensures hw[i] == PictureByte(m, fb, i)
  {
    hide PictureByte, Shown, PaddingClear, LineOf, OffsetOf;
    var y, k := LineOf(m, i), OffsetOf(m, i);
    PlaceInLine(m, i);
    if k < m.Width() * m.bytes {
      ByteIsShown(m, hw, fb, i, k / m.bytes);
    } else {
      PaddingOfPicture(m, fb, i);
      PaddingIs(m, hw, i, y, k);
    }
  }

  /** With every pixel shown the hardware buffer is the whole picture, to the last byte. */
  lemma ShownIsPicture(m: Mode, hw: seq<Octet>, fb: seq<bv32>)
    requires m.Valid() && |fb| == m.Width() * m.Height() && |hw| == m.Height() * m.pitch && PaddingClear(m, hw)
    requires forall x: int, y: int | m.Pixel(x, y) :: Shown(m, hw, fb, x, y)
    ensures hw == Picture(m, fb)
  {
    hide PictureByte, PaddingClear, Shown;
    var picture := Picture(m, fb);
    forall i: nat | i < |hw| ensures hw[i] == picture[i] {
      ByteIsPicture(m, hw, fb, i);
    }
  }

  lemma AllBlack(m: Mode, hw: seq<Octet>, fb: seq<bv32>, diff: seq<bool>)
    requires Sized(m, hw, fb, diff)
    requires (forall i | 0 <= i < |hw| :: hw[i] == 0) && (forall i | 0 <= i < |fb| :: fb[i] == 0)
    ensures Coherent(m, hw, fb, diff, iset{}) && PaddingClear(m, hw)
  {
    forall x: int, y: int | m.Pixel(x, y) ensures Shown(m, hw, fb, x, y) {
      m.PixelInBuffer(x, y);
      m.PixelApart(x, y, 0, 0, y);
    }
    forall y: nat, k: nat | y < m.Height() && m.Width() * m.bytes <= k < m.pitch ensures PaddingAt(m, y, k) < |hw| {
      MulStrict(y, m.Height(), m.pitch);
    }
  }

  // ---------- The driver ----------

  class Screen {
    const mode: Mode
    const frameBuffer: array<bv32>
    const diff: array<bool>
    const hw: array<Octet>
    /** Pixels drawn since the region they are in was last marked. */
    ghost var pending: Pixels

    ghost predicate Apart() {
      var screen: object, flags: object, pixels: object := hw, diff, frameBuffer;
      screen != flags && screen != pixels && flags != pixels
    }

    ghost predicate Valid()
      reads this, frameBuffer, diff, hw
    {
      Apart() && Coherent(mode, hw[..], frameBuffer[..], diff[..], pending) && PaddingClear(mode, hw[..])
    }

    /** A new mode: everything is black, nothing is marked. */
    constructor (mode: Mode)
      requires mode.Valid()
      ensures Valid() && this.mode == mode && pending == iset{}
      ensures forall i | 0 <= i < diff.Length :: !diff[i]
      ensures forall i | 0 <= i < frameBuffer.Length :: frameBuffer[i] == 0
      ensures fresh(frameBuffer) && fresh(diff) && fresh(hw)
    {
      this.mode := mode;
      frameBuffer := new bv32[mode.Width() * mode.Height()](_ => 0);
      diff := new bool[mode.columns * mode.rows](_ => false);
      hw := new Octet[mode.Height() * mode.pitch](_ => 0);
      pending := iset{};
      new;
      AllBlack(mode, hw[..], frameBuffer[..], diff[..]);
    }

    /** A program draws a pixel; the driver is not told. */
    method Draw(x: nat, y: nat, color: bv32)
      requires Valid() && mode.Pixel(x, y)
      modifies this, frameBuffer
      ensures Valid() && pending == old(pending) + iset{(x, y)}
      ensures mode.At(x, y) < frameBuffer.Length && frameBuffer[..] == old(frameBuffer[..])[mode.At(x, y) := color]
    {
      mode.PixelInBuffer(x, y);
      assert mode.At(x, y) < frameBuffer.Length;
      hide Coherent, PaddingClear, Mode.At, Mode.Width, Mode.Height, Mode.Valid;
      WriteKeeps(mode, hw[..], frameBuffer[..], diff[..], pending, x, y, color);
      frameBuffer[mode.At(x, y)] := color;
      pending := pending + iset{(x, y)};
      assert frameBuffer[..] == old(frameBuffer[..])[mode.At(x, y) := color];
      assert hw[..] == old(hw[..]) && diff[..] == old(diff[..]);
    }

    method SetRegionDiff(xr: nat, yr: nat)
      requires Valid() && xr < mode.columns && yr < mode.rows
      modifies this, diff
      ensures Valid() && pending == old(pending) - Regions(xr, xr + 1, yr)
      ensures Stretch(mode, old(diff[..]), diff[..], xr, xr + 1, yr, true)
    {
      mode.FlagIs(xr, yr);
      assert mode.Flag(xr, yr) < diff.Length;
      SetOne(mode, diff[..], diff[..], xr, xr, yr, true);
      hide Coherent, PaddingClear, Stretch, Mode.Flag;
      MarkKeeps(mode, hw[..], frameBuffer[..], diff[..], pending, xr, yr);
      diff[mode.Flag(xr, yr)] := true;
      pending := pending - Regions(xr, xr + 1, yr);
      assert diff[..] == old(diff[..])[mode.Flag(xr, yr) := true];
      assert hw[..] == old(hw[..]) && frameBuffer[..] == old(frameBuffer[..]);
    }

    method ResetRegionDiff(xr: nat, yr: nat)
      requires Valid() && xr < mode.columns && yr < mode.rows
      modifies this, diff
      ensures Valid() && pending == old(pending) + Regions(xr, xr + 1, yr)
      ensures Stretch(mode, old(diff[..]), diff[..], xr, xr + 1, yr, false)
    {
      mode.FlagIs(xr, yr);
      assert mode.Flag(xr, yr) < diff.Length;
      SetOne(mode, diff[..], diff[..], xr, xr, yr, false);
      hide Coherent, PaddingClear, Stretch, Mode.Flag;
      ResetKeeps(mode, hw[..], frameBuffer[..], diff[..], pending, xr, yr);
      diff[mode.Flag(xr, yr)] := false;
      pending := pending + Regions(xr, xr + 1, yr);
      assert diff[..] == old(diff[..])[mode.Flag(xr, yr) := false];
      assert hw[..] == old(hw[..]) && frameBuffer[..] == old(frameBuffer[..]);
    }

    method GetRegionDiff(xr: nat, yr: nat) returns (r: bool)
      requires Valid() && xr < mode.columns && yr < mode.rows
      ensures r == IsSet(mode, diff[..], xr, yr)
    {
      mode.FlagIs(xr, yr);
      r := diff[mode.Flag(xr, yr)];
    }

    lemma FlagCount()
      requires Valid()
      ensures |diff[..]| == mode.columns * mode.rows
    {
    }

    /** How many regions from here on are alike, as many as there are: positive when they are marked. */
    method GetDiffChunk(start: nat, yr: nat) returns (chunk: int)
      requires Valid() && start < mode.columns && yr < mode.rows
      ensures chunk != 0 && start + Abs(chunk) <= mode.columns
      ensures forall xr: nat | start <= xr < start + Abs(chunk) :: IsSet(mode, diff[..], xr, yr) == (chunk > 0)
      ensures var next := start + Abs(chunk); next < mode.columns ==> IsSet(mode, diff[..], next, yr) != (chunk > 0)
    {
      hide Coherent, PaddingClear, IsSet;
      assert |diff[..]| == mode.columns * mode.rows by { FlagCount(); }
      var modified := GetRegionDiff(start, yr);
      var size, xr := 1, start + 1;
      while xr < mode.columns
        invariant xr == start + size <= mode.columns
        invariant forall x: nat | start <= x < start + size :: IsSet(mode, diff[..], x, yr) == modified
      {
        var same := GetRegionDiff(xr, yr);
        if same != modified {
          break;
        }
        size, xr := size + 1, xr + 1;
      }
      chunk := if modified then size else -size;
    }

    /** The inner loop of an invalidation. */
    method MarkRow(from: nat, to: nat, yr: nat)
      requires Valid() && to <= mode.columns && yr < mode.rows
      modifies this, diff
      ensures Valid() && pending == old(pending) - Regions(from, to, yr)
      ensures Stretch(mode, old(diff[..]), diff[..], from, to, yr, true)
    {
      FlagCount();
      hide Coherent, PaddingClear, IsSet;
      var xr := from;
      while xr < to
        invariant Valid() && from <= xr && (xr == from || xr <= to)
        invariant pending == old(pending) - Regions(from, xr, yr)
        invariant Stretch(mode, old(diff[..]), diff[..], from, xr, yr, true)
      {
        SetRegionDiff(xr, yr);
        xr := xr + 1;
      }
    }

    /** fb_invalidate: the regions of the rectangle are marked, the upper bounds being exclusive. */
    method Invalidate(x0: nat, y0: nat, x1: nat, y1: nat)
      requires Valid() && x1 <= mode.Width() && y1 <= mode.Height()
      modifies this, diff
      ensures Valid() && pending == old(pending) - Marked(x0, y0, x1, y1)
      ensures |diff[..]| == |old(diff[..])| == mode.columns * mode.rows
      ensures forall xs: nat, ys: nat | xs < mode.columns && ys < mode.rows ::
                IsSet(mode, diff[..], xs, ys) == (IsSet(mode, old(diff[..]), xs, ys) || InBlock(x0, y0, x1, y1, xs, ys))
    {
      FlagCount();
      hide Coherent, PaddingClear, IsSet;
      var from, to := x0 / REGION, (x1 + REGION - 1) / REGION;
      var first, end := y0 / REGION, (y1 + REGION - 1) / REGION;
      var yr := first;
      while yr < end
        invariant Valid() && first <= yr && (yr == first || yr <= end)
        invariant pending == old(pending) - Block(from, to, first, yr)
        invariant |diff[..]| == mode.columns * mode.rows
        invariant forall xs: nat, ys: nat | xs < mode.columns && ys < mode.rows ::
            IsSet(mode, diff[..], xs, ys)
              == (IsSet(mode, old(diff[..]), xs, ys) || (from <= xs < to && first <= ys < yr))
      {
        MarkRow(from, to, yr);
        yr := yr + 1;
      }
    }

    lemma InBuffer(x: nat, y: nat, count: nat)
      requires Valid() && x + count <= mode.Width() && y < mode.Height()
      ensures mode.At(x, y) + count <= frameBuffer.Length && mode.Height() * mode.pitch == hw.Length
      ensures 2 <= mode.bytes <= 4
    {
      MulStrict(y, mode.Height(), mode.Width());
    }

    lemma Drawn(h: seq<Octet>, x: nat, y: nat, count: nat, pending: Pixels)
      requires Coherent(mode, h, frameBuffer[..], diff[..], pending) && PaddingClear(mode, h)
      requires x + count <= mode.Width() && y < mode.Height() && mode.At(x, y) + count <= frameBuffer.Length
      requires SameOutside(h, hw[..], mode.ByteAt(x, y), mode.ByteAt(x + count, y))
      requires Run(hw[..], mode.ByteAt(x, y), frameBuffer[..][mode.At(x, y)..mode.At(x, y) + count], mode.bytes)
      ensures Coherent(mode, hw[..], frameBuffer[..], diff[..], pending - Line(x, x + count, y))
      ensures PaddingClear(mode, hw[..])
    {
      DrawKeeps(mode, h, hw[..], frameBuffer[..], diff[..], pending, x, x + count, y);
      PaddingStays(mode, h, hw[..], x, x + count, y);
    }

    /** convert_color for `count` pixels from column `x` of line `y` on. */
    method DrawLine(x: nat, y: nat, count: nat)
      requires Valid() && x + count <= mode.Width() && y < mode.Height()
      modifies this`pending, hw
      ensures Valid() && pending == old(pending) - Line(x, x + count, y)
      ensures SameOutside(old(hw[..]), hw[..], mode.ByteAt(x, y), mode.ByteAt(x + count, y))
    {
      mode.LineBytes(x, x + count, y);
      InBuffer(x, y, count);
      assert mode.bytes * count == count * mode.bytes;
      ghost var h := hw[..];
      ghost var fb, flags := frameBuffer[..], diff[..];
      var src, dest := mode.At(x, y), mode.ByteAt(x, y);
      hide Coherent, PaddingClear, Run, SameOutside, Mode.At, Mode.ByteAt;
      ConvertColor(frameBuffer, src, hw, dest, count, mode.bytes, mode.base);
      assert frameBuffer[..] == fb;
      assert diff[..] == flags;
      assert frameBuffer[src..src + count] == fb[src..src + count];
      Drawn(h, x, y, count, pending);
      pending := pending - Line(x, x + count, y);
    }

    /** The flags of a stretch are taken back before its pixels are drawn. */
    method ResetRow(from: nat, to: nat, yr: nat)
      requires Valid() && from <= to <= mode.columns && yr < mode.rows
      modifies this, diff
      ensures Valid() && pending == old(pending) + Regions(from, to, yr)
      ensures Stretch(mode, old(diff[..]), diff[..], from, to, yr, false)
    {
      FlagCount();
      hide Coherent, PaddingClear, IsSet;
      var xr := from;
      while xr < to
        invariant Valid() && from <= xr <= to
        invariant pending == old(pending) + Regions(from, xr, yr)
        invariant Stretch(mode, old(diff[..]), diff[..], from, xr, yr, false)
      {
        ResetRegionDiff(xr, yr);
        xr := xr + 1;
      }
    }

    lemma BufferSizes()
      requires Valid()
      ensures |diff[..]| == mode.columns * mode.rows && mode.Valid() && |hw[..]| == mode.Height() * mode.pitch
      ensures |hw[..]| == hw.Length
    {
    }

    /** The sixteen lines of a stretch of regions. */
    method DrawRow(from: nat, to: nat, yr: nat)
      requires Valid() && from <= to <= mode.columns && yr < mode.rows
      modifies this`pending, hw
      ensures Valid() && pending == old(pending) - Regions(from, to, yr)
      ensures OnlyRegions(mode, old(hw[..]), hw[..], from, to, yr)
    {
      BufferSizes();
      hide Coherent, PaddingClear, SameOutside, PixelBytes, OnlyRegions, Mode.ByteAt;
      NothingChanged(mode, hw[..], from, to, yr);
      var y := yr * REGION;
      while y < (yr + 1) * REGION
        invariant Valid() && yr * REGION <= y <= (yr + 1) * REGION
        invariant pending == old(pending) - Lines(from, to, yr * REGION, y)
        invariant OnlyRegions(mode, old(hw[..]), hw[..], from, to, yr)
      {
        ghost var h := hw[..];
        DrawLine(from * REGION, y, (to - from) * REGION);
        LineInRegions(mode, old(hw[..]), h, hw[..], from, to, yr, y);
        y := y + 1;
      }
    }

    /** One row of regions of a flush that began with the flags `d`. */
    method FlushRow(ghost d: seq<bool>, ghost unannounced: Pixels, ghost h: seq<Octet>, yr: nat)
      requires Valid() && yr < mode.rows && |d| == mode.columns * mode.rows && |h| == hw.Length
      requires pending == unannounced - Flushed(mode, d, 0, yr)
      requires Cleared(mode, d, diff[..], 0, yr) && OnlyDirty(mode, h, hw[..], d)
      modifies this, diff, hw
      ensures Valid() && pending == unannounced - Flushed(mode, d, mode.columns, yr)
      ensures Cleared(mode, d, diff[..], mode.columns, yr) && OnlyDirty(mode, h, hw[..], d)
    {
      BufferSizes();
      hide Coherent, PaddingClear, PixelBytes, IsSet, OnlyDirty, OnlyRegions, Stretch, Cleared, Flushed;
      var xr := 0;
      while xr < mode.columns
        invariant Valid() && 0 <= xr <= mode.columns
        invariant pending == unannounced - Flushed(mode, d, xr, yr)
        invariant Cleared(mode, d, diff[..], xr, yr) && OnlyDirty(mode, h, hw[..], d)
      {
        var chunk := GetDiffChunk(xr, yr);
        AlikeBefore(mode, d, diff[..], xr, yr, Abs(chunk), chunk > 0);
        if chunk < 0 {
          SkipRow(mode, d, diff[..], xr, yr, -chunk);
          xr := xr - chunk;
        } else {
          ghost var flags, pixels := diff[..], hw[..];
          ResetRow(xr, xr + chunk, yr);
          ClearRow(mode, d, flags, diff[..], xr, yr, chunk);
          flags := diff[..];
          DrawRow(xr, xr + chunk, yr);
          assert diff[..] == flags;
          RegionsAreDirty(mode, h, pixels, hw[..], d, xr, xr + chunk, yr);
          xr := xr + chunk;
        }
      }
    }

    /** fb_flush: what is marked is drawn and no longer marked; what is not marked is not touched. */
    method Flush()
      requires Valid()
      modifies this, diff, hw
      ensures Valid() && pending == old(pending) - DirtyPixels(mode, old(diff[..]))
      ensures forall xs: nat, ys: nat | xs < mode.columns && ys < mode.rows :: !IsSet(mode, diff[..], xs, ys)
      ensures OnlyDirty(mode, old(hw[..]), hw[..], old(diff[..]))
    {
      BufferSizes();
      hide Coherent, PaddingClear, PixelBytes, IsSet, OnlyDirty;
      NothingDrawn(mode, hw[..], diff[..]);
      var yr := 0;
      while yr < mode.rows
        invariant Valid() && 0 <= yr <= mode.rows && |diff[..]| == mode.columns * mode.rows
        invariant pending == old(pending) - Flushed(mode, old(diff[..]), 0, yr)
        invariant Cleared(mode, old(diff[..]), diff[..], 0, yr)
        invariant OnlyDirty(mode, old(hw[..]), hw[..], old(diff[..]))
      {
        FlushRow(old(diff[..]), old(pending), old(hw[..]), yr);
        NextRow(mode, old(diff[..]), diff[..], yr);
        yr := yr + 1;
      }
    }

    /** When everything drawn was announced, a flush makes the screen the picture that a full redraw would make. */
    method FlushToPicture()
      requires Valid() && pending <= DirtyPixels(mode, diff[..])
      modifies this, diff, hw
      ensures Valid() && hw[..] == Picture(mode, frameBuffer[..])
    {
      BufferSizes();
      Flush();
      forall x: int, y: int | mode.Pixel(x, y) ensures Shown(mode, hw[..], frameBuffer[..], x, y) {
        assert !IsSet(mode, diff[..], x / REGION, y / REGION);
        assert (x, y) !in pending;
      }
      ShownIsPicture(mode, hw[..], frameBuffer[..]);
    }
  }
}
