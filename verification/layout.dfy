/**
  The byte layout of a decoded image: the part of an image spec that the
  viewer's address arithmetic reads, and the offsets of scanlines and pixels
  inside a pixel buffer of `height` scanlines.
 */
module Layout {

  /** Format descriptor. The strides are given, not derived from the channel
      format, exactly as the image library hands them to the viewer. */
  datatype Spec = Spec(
    width: nat,
    height: nat,
    nchannels: nat,
    pixelBytes: nat,     // bytes from one pixel to the next in a scanline
    scanlineBytes: nat   // bytes from one scanline to the next
  )

  /** Size of a full pixel buffer for `s`. */
  function ImageBytes(s: Spec): nat {
    s.height * s.scanlineBytes
  }

  /** Strides that give every pixel of a scanline bytes of its own. */
  predicate Packed(s: Spec) {
    s.pixelBytes > 0 && s.scanlineBytes >= s.width * s.pixelBytes
  }

  /** (x, y) names a pixel of the image. */
  predicate InImage(s: Spec, x: int, y: int) {
    0 <= x < s.width && 0 <= y < s.height
  }

  /** Byte offset of the start of scanline `y`. */
  function ScanlineOffset(s: Spec, y: int): int {
    y * s.scanlineBytes
  }

  /** Byte offset of the first byte of pixel (x, y). */
  function PixelOffset(s: Spec, x: int, y: int): int {
    y * s.scanlineBytes + x * s.pixelBytes
  }

  /** Inverse of PixelOffset on pixel-aligned offsets: the (x, y) whose
      first byte sits at `off`. */
  function PixelAt(s: Spec, off: nat): (xy: (nat, nat))
    requires s.pixelBytes > 0 && s.scanlineBytes > 0
  {
    ((off % s.scanlineBytes) / s.pixelBytes, off / s.scanlineBytes)
  }

  // ---------------------------------------------------------------------
  // Arithmetic helpers

  lemma {:induction false} MulMonotone(a: int, b: int, c: nat)
    requires a <= b
    ensures a * c <= b * c
  {
    if c > 0 {
      MulMonotone(a, b, c - 1);
      assert a * c == a * (c - 1) + a;
      assert b * c == b * (c - 1) + b;
    }
  }

  lemma DivModUnique(n: int, d: int, q: int, r: int)
    requires d > 0 && 0 <= r < d && n == q * d + r
    ensures n / d == q && n % d == r
  {
    var k := q - n / d;
    assert k * d == n % d - r;
    MulAwayFromZero(k, d);
  }

  lemma MulAwayFromZero(k: int, d: int)
    requires d >= 0
    ensures k >= 1 ==> k * d >= d
    ensures k <= -1 ==> k * d <= -d
  {
    if k >= 1 {
      MulMonotone(1, k, d);
    } else if k <= -1 {
      MulMonotone(k, -1, d);
    }
  }

  // ---------------------------------------------------------------------
  // Properties of the address arithmetic

  /** Column 0 of a scanline starts where the scanline starts. */
  lemma PixelZeroIsScanline(s: Spec, y: int)
    ensures PixelOffset(s, 0, y) == ScanlineOffset(s, y)
  {
  }

  /** A pixel's bytes lie inside its own scanline's stride. */
  lemma PixelWithinScanline(s: Spec, x: int, y: int)
    requires Packed(s) && 0 <= x < s.width
    ensures ScanlineOffset(s, y) <= PixelOffset(s, x, y)
    ensures PixelOffset(s, x, y) + s.pixelBytes <= ScanlineOffset(s, y + 1)
  {
    MulMonotone(0, x, s.pixelBytes);
    MulMonotone(x + 1, s.width, s.pixelBytes);
    assert (x + 1) * s.pixelBytes == x * s.pixelBytes + s.pixelBytes;
    assert (y + 1) * s.scanlineBytes == y * s.scanlineBytes + s.scanlineBytes;
  }

  /** Every in-range pixel's bytes lie inside a buffer of ImageBytes(s). */
  lemma PixelInBounds(s: Spec, x: int, y: int)
    requires Packed(s) && InImage(s, x, y)
    ensures 0 <= PixelOffset(s, x, y)
    ensures PixelOffset(s, x, y) + s.pixelBytes <= ImageBytes(s)
  {
    PixelWithinScanline(s, x, y);
    MulMonotone(0, y, s.scanlineBytes);
    MulMonotone(y + 1, s.height, s.scanlineBytes);
  }

  /** Pixels are laid out in row-major order, each after the bytes of the
      one before it. */
  lemma RowMajorOrder(s: Spec, x1: int, y1: int, x2: int, y2: int)
    requires Packed(s) && InImage(s, x1, y1) && InImage(s, x2, y2)
    requires y1 < y2 || (y1 == y2 && x1 < x2)
    ensures PixelOffset(s, x1, y1) + s.pixelBytes <= PixelOffset(s, x2, y2)
  {
    if y1 < y2 {
      PixelWithinScanline(s, x1, y1);
      PixelWithinScanline(s, x2, y2);
      MulMonotone(y1 + 1, y2, s.scanlineBytes);
    } else {
      MulMonotone(x1 + 1, x2, s.pixelBytes);
      assert (x1 + 1) * s.pixelBytes == x1 * s.pixelBytes + s.pixelBytes;
    }
  }

  /** Distinct pixels occupy disjoint byte ranges, so their offsets differ. */
  lemma PixelsDisjoint(s: Spec, x1: int, y1: int, x2: int, y2: int)
    requires Packed(s) && InImage(s, x1, y1) && InImage(s, x2, y2)
    requires (x1, y1) != (x2, y2)
    ensures PixelOffset(s, x1, y1) + s.pixelBytes <= PixelOffset(s, x2, y2)
         || PixelOffset(s, x2, y2) + s.pixelBytes <= PixelOffset(s, x1, y1)
    ensures PixelOffset(s, x1, y1) != PixelOffset(s, x2, y2)
  {
    if y1 < y2 || (y1 == y2 && x1 < x2) {
      RowMajorOrder(s, x1, y1, x2, y2);
    } else {
      RowMajorOrder(s, x2, y2, x1, y1);
    }
  }

  /** The offset of an in-range pixel determines the pixel. */
  lemma PixelAtInvertsOffset(s: Spec, x: int, y: int)
    requires Packed(s) && InImage(s, x, y)
    ensures s.scanlineBytes > 0 && PixelOffset(s, x, y) >= 0
    ensures PixelAt(s, PixelOffset(s, x, y)) == (x, y)
  {
    MulMonotone(1, s.width, s.pixelBytes);
    PixelInBounds(s, x, y);
    PixelWithinScanline(s, x, y);
    var off := PixelOffset(s, x, y);
    DivModUnique(off, s.scanlineBytes, y, x * s.pixelBytes);
    DivModUnique(x * s.pixelBytes, s.pixelBytes, x, 0);
  }

  // ---------------------------------------------------------------------
  // The buffer as a sequence of scanlines

  /** The first `n` scanlines of `buf`, each `stride` bytes long. */
  function Scanlines<T>(buf: seq<T>, stride: nat, n: nat): (rows: seq<seq<T>>)
    requires |buf| >= n * stride
    ensures |rows| == n
    ensures forall i :: 0 <= i < n ==> |rows[i]| == stride
    decreases n
  {
    if n == 0 then []
    else
      assert |buf[stride..]| >= (n - 1) * stride by {
        assert n * stride == (n - 1) * stride + stride;
      }
      [buf[..stride]] + Scanlines(buf[stride..], stride, n - 1)
  }

  /** Scanline `y` of the buffer starts `y * stride` bytes in. */
  lemma {:induction false} ScanlineIsRow<T>(buf: seq<T>, stride: nat, n: nat, y: nat)
    requires |buf| >= n * stride && y < n
    ensures y * stride + stride <= |buf|
    ensures Scanlines(buf, stride, n)[y] == buf[y * stride .. y * stride + stride]
    decreases n
  {
    MulMonotone(y + 1, n, stride);
    MulSucc(y, stride);
    if y > 0 {
      var rest := buf[stride..];
      MulSucc(n - 1, stride);
      ScanlineIsRow(rest, stride, n - 1, y - 1);
      MulSucc(y - 1, stride);
      var a := (y - 1) * stride;
      assert Scanlines(buf, stride, n)[y] == Scanlines(rest, stride, n - 1)[y - 1];
      assert rest[a .. a + stride] == buf[stride + a .. stride + a + stride];
    }
  }

  lemma MulSucc(a: int, b: int)
    ensures (a + 1) * b == a * b + b
  {
  }

  /** The bytes of pixel (x, y) are bytes x * pixelBytes onward of
      scanline y. */
  lemma PixelInRow<T>(s: Spec, buf: seq<T>, x: int, y: int)
    requires Packed(s) && InImage(s, x, y) && |buf| == ImageBytes(s)
    ensures 0 <= PixelOffset(s, x, y) && PixelOffset(s, x, y) + s.pixelBytes <= |buf|
    ensures 0 <= x * s.pixelBytes && x * s.pixelBytes + s.pixelBytes <= s.scanlineBytes
    ensures buf[PixelOffset(s, x, y) .. PixelOffset(s, x, y) + s.pixelBytes]
         == Scanlines(buf, s.scanlineBytes, s.height)[y][x * s.pixelBytes .. x * s.pixelBytes + s.pixelBytes]
  {
    PixelInBounds(s, x, y);
    PixelWithinScanline(s, x, y);
    MulSucc(y, s.scanlineBytes);
    MulMonotone(0, y, s.scanlineBytes);
    MulMonotone(0, x, s.pixelBytes);
    ScanlineIsRow(buf, s.scanlineBytes, s.height, y);
    var start: nat := y * s.scanlineBytes;
    var col: nat := x * s.pixelBytes;
    SliceOfSlice(buf, start, s.scanlineBytes, col, s.pixelBytes);
  }

  lemma SliceOfSlice<T>(buf: seq<T>, start: nat, len: nat, col: nat, width: nat)
    requires start + len <= |buf| && col + width <= len
    ensures buf[start .. start + len][col .. col + width] == buf[start + col .. start + col + width]
  {
    var row := buf[start .. start + len];
    var cell := row[col .. col + width];
    forall i | 0 <= i < width
      ensures cell[i] == buf[start + col + i]
    {
      assert cell[i] == row[col + i];
    }
    assert cell == buf[start + col .. start + col + width];
  }
}
