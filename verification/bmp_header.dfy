/**
 * `create_bmp_header` of livePreview.c: a 54-byte Windows bitmap header
 * (14-byte BITMAPFILEHEADER followed by a 40-byte BITMAPINFOHEADER) for a
 * 320 x 240, 24-bit, top-down image. The fields are stored through `int *`
 * and `short *` casts, so they take the host's byte order; the model fixes
 * that to little-endian, which is both the target's order and the order the
 * bitmap format requires.
 */
module BmpHeader {
  import opened Common
  import opened PixelDecode

  const HeaderSize := 54
  const InfoHeaderSize := 40
  const ImageSize := Width * Height * 3
  const FileSize := HeaderSize + ImageSize
  const PixelsPerMetre := 2835

  /** The `n` low-order bytes of x's two's-complement form, least significant first. */
  function LeBytes(x: int, n: nat): (r: seq<int>)
    ensures |r| == n && IsBytes(r)
    decreases n
  {
    if n == 0 then [] else [x % 256] + LeBytes(x / 256, n - 1)
  }

  /** Reads `n` bytes at `off` as an unsigned little-endian number. */
  function ReadLe(h: seq<int>, off: nat, n: nat): int
    requires off + n <= |h|
    decreases n
  {
    if n == 0 then 0 else h[off] + 256 * ReadLe(h, off + 1, n - 1)
  }

  function Pow256(n: nat): (p: nat)
    ensures p >= 1
  {
    if n == 0 then 1 else 256 * Pow256(n - 1)
  }

  /** Reading back what was written gives x modulo 2^(8n). */
  lemma {:induction false} ReadLeBytes(x: int, n: nat)
    ensures ReadLe(LeBytes(x, n), 0, n) == x % Pow256(n)
    decreases n
  {
    if n > 0 {
      var t := LeBytes(x / 256, n - 1);
      ReadLeBytes(x / 256, n - 1);
      ReadLeShift(x % 256, t, n - 1);
      ModSplit(x, Pow256(n - 1));
    }
  }

  lemma {:induction false} ReadLeShift(b: int, t: seq<int>, n: nat)
    requires n <= |t|
    ensures ReadLe([b] + t, 1, n) == ReadLe(t, 0, n)
  {
    ReadLeShiftAt(b, t, 0, n);
  }

  lemma {:induction false} ReadLeShiftAt(b: int, t: seq<int>, off: nat, n: nat)
    requires off + n <= |t|
    ensures ReadLe([b] + t, off + 1, n) == ReadLe(t, off, n)
    decreases n
  {
    if n > 0 {
      ReadLeShiftAt(b, t, off + 1, n - 1);
    }
  }

  lemma ModSplit(x: int, p: nat)
    requires p >= 1
    ensures x % 256 + 256 * ((x / 256) % p) == x % (256 * p)
  {
    var q := x / 256;
    var k, r := q / p, x % 256 + 256 * (q % p);
    assert x == 256 * q + x % 256;
    assert q == p * k + q % p;
    assert x == (256 * p) * k + r;
    DivModUnique(x, 256 * p, k, r);
  }

  /** An unsigned 32-bit field read as a C `int` (two's complement). */
  function ToSigned32(x: int): int {
    if x < 0x8000_0000 then x else x - 0x1_0000_0000
  }

  /** Values that fit a C `int` survive the store and the signed read. */
  lemma SignedRoundTrip(x: int)
    requires -0x8000_0000 <= x < 0x8000_0000
    ensures 0 <= ReadLe(LeBytes(x, 4), 0, 4) < 0x1_0000_0000
    ensures ToSigned32(ReadLe(LeBytes(x, 4), 0, 4)) == x
  {
    ReadLeBytes(x, 4);
    assert Pow256(4) == 0x1_0000_0000;
  }

  function Zeros(n: nat): (r: seq<int>)
    ensures |r| == n && IsBytes(r)
  {
    seq(n, _ => 0)
  }

  /** The 14-byte BITMAPFILEHEADER: stores at offsets 0, 1, 2 and 10, zeros from the memset at 6..9. */
  function FileHeader(): (h: seq<int>)
    ensures |h| == 14
    ensures IsBytes(h) && h[0] == 'B' as int && h[1] == 'M' as int
  {
    ['B' as int, 'M' as int] + LeBytes(FileSize, 4) + Zeros(4) + LeBytes(HeaderSize, 4)
  }

  /**
   * The 40-byte BITMAPINFOHEADER: stores at header offsets 14, 18, 22, 26,
   * 28, 30, 34, 38 and 42, zeros from the memset at 46..53.
   */
  function InfoHeader(): (h: seq<int>)
    ensures |h| == InfoHeaderSize
  {
    LeBytes(InfoHeaderSize, 4) + LeBytes(Width, 4) + LeBytes(-Height, 4)
    + LeBytes(1, 2) + LeBytes(24, 2)
    + LeBytes(0, 4) + LeBytes(ImageSize, 4)
    + LeBytes(PixelsPerMetre, 4) + LeBytes(PixelsPerMetre, 4)
    + Zeros(8)
  }

  /**
   * `create_bmp_header`: the header after `memset(header, 0, 54)` and the
   * field stores. The stores do not overlap, so the header is the stored
   * fields laid end to end with the memset's zeros in the gaps; the lemmas
   * below read each field back at the offset the C code stores it at.
   */
  function CreateBmpHeader(): (h: seq<int>)
    ensures |h| == HeaderSize
  {
    FileHeader() + InfoHeader()
  }

  /** Every entry of the header is a byte: the C code fills an `unsigned char` buffer. */
  lemma HeaderIsBytes()
    ensures IsBytes(CreateBmpHeader())
  {
    var h := LeBytes(InfoHeaderSize, 4);
    BytesConcat(h, LeBytes(Width, 4));
    h := h + LeBytes(Width, 4);
    BytesConcat(h, LeBytes(-Height, 4));
    h := h + LeBytes(-Height, 4);
    BytesConcat(h, LeBytes(1, 2));
    h := h + LeBytes(1, 2);
    BytesConcat(h, LeBytes(24, 2));
    h := h + LeBytes(24, 2);
    BytesConcat(h, LeBytes(0, 4));
    h := h + LeBytes(0, 4);
    BytesConcat(h, LeBytes(ImageSize, 4));
    h := h + LeBytes(ImageSize, 4);
    BytesConcat(h, LeBytes(PixelsPerMetre, 4));
    h := h + LeBytes(PixelsPerMetre, 4);
    BytesConcat(h, LeBytes(PixelsPerMetre, 4));
    h := h + LeBytes(PixelsPerMetre, 4);
    BytesConcat(h, Zeros(8));
    h := h + Zeros(8);
    assert h == InfoHeader();
    BytesConcat(FileHeader(), h);
  }

  lemma BytesConcat(a: seq<int>, b: seq<int>)
    requires IsBytes(a) && IsBytes(b)
    ensures IsBytes(a + b)
  {
  }

  /** Reading past a prefix reads the rest. */
  lemma {:induction false} ReadLeAfter(a: seq<int>, b: seq<int>, off: nat, n: nat)
    requires off + n <= |b|
    ensures ReadLe(a + b, |a| + off, n) == ReadLe(b, off, n)
    decreases n
  {
    if n > 0 {
      ReadLeAfter(a, b, off + 1, n - 1);
    }
  }

  /** Reading inside a prefix ignores what follows. */
  lemma {:induction false} ReadLeBefore(a: seq<int>, b: seq<int>, off: nat, n: nat)
    requires off + n <= |a|
    ensures ReadLe(a + b, off, n) == ReadLe(a, off, n)
    decreases n
  {
    if n > 0 {
      ReadLeBefore(a, b, off + 1, n - 1);
    }
  }

  /** BITMAPFILEHEADER: the "BM" signature, file size, reserved zeros, pixel data offset. */
  lemma FileHeaderFields()
    ensures var h := CreateBmpHeader();
      && h[0] == 'B' as int && h[1] == 'M' as int
      && ReadLe(h, 2, 4) == FileSize == 230454
      && h[6] == h[7] == h[8] == h[9] == 0
      && ReadLe(h, 10, 4) == HeaderSize
  {
    var f := FileHeader();
    assert LeBytes(FileSize, 4) == [0x36, 0x84, 0x03, 0x00];
    assert LeBytes(HeaderSize, 4) == [54, 0, 0, 0];
    assert f[6] == f[7] == f[8] == f[9] == 0;
    ReadLeBefore(f, InfoHeader(), 2, 4);
    ReadLeBefore(f, InfoHeader(), 10, 4);
  }

  /** Offset 14: the info header declares its own size. */
  lemma InfoSizeField()
    ensures ReadLe(CreateBmpHeader(), 14, 4) == InfoHeaderSize
  {
    assert ReadLe(InfoHeader(), 0, 4) == InfoHeaderSize by {
      assert LeBytes(InfoHeaderSize, 4) == [40, 0, 0, 0];
    }
    ReadLeAfter(FileHeader(), InfoHeader(), 0, 4);
  }

  /** Offset 18: width in pixels. */
  lemma WidthField()
    ensures ToSigned32(ReadLe(CreateBmpHeader(), 18, 4)) == Width
  {
    InfoWidth();
    assert ReadLe(CreateBmpHeader(), 18, 4) == Width by {
      ReadLeAfter(FileHeader(), InfoHeader(), 4, 4);
    }
  }

  /** 320 as four little-endian bytes. */
  lemma InfoWidth()
    ensures ReadLe(InfoHeader(), 4, 4) == Width
  {
    assert LeBytes(Width, 4) == [0x40, 0x01, 0, 0];
  }

  /** Offset 22: a negative height: the rows run top-down. */
  lemma HeightField()
    ensures ToSigned32(ReadLe(CreateBmpHeader(), 22, 4)) == -Height
  {
    InfoHeight();
    assert ReadLe(CreateBmpHeader(), 22, 4) == 0xFFFF_FF10 by {
      ReadLeAfter(FileHeader(), InfoHeader(), 8, 4);
    }
  }

  /** -240 in two's complement: 0xFFFFFF10. */
  lemma InfoHeight()
    ensures ReadLe(InfoHeader(), 8, 4) == 0xFFFF_FF10
  {
    assert LeBytes(-Height, 4) == [0x10, 0xFF, 0xFF, 0xFF];
  }

  /** Offset 26: one colour plane. */
  lemma PlanesField()
    ensures ReadLe(CreateBmpHeader(), 26, 2) == 1
  {
    assert ReadLe(InfoHeader(), 12, 2) == 1 by {
      assert LeBytes(1, 2) == [1, 0];
    }
    ReadLeAfter(FileHeader(), InfoHeader(), 12, 2);
  }

  /** Offset 28: 24 bits per pixel. */
  lemma DepthField()
    ensures ReadLe(CreateBmpHeader(), 28, 2) == 24
  {
    InfoDepth();
    ReadLeAfter(FileHeader(), InfoHeader(), 14, 2);
  }

  /** 24 as two little-endian bytes. */
  lemma InfoDepth()
    ensures ReadLe(InfoHeader(), 14, 2) == 24
  {
    assert LeBytes(24, 2) == [24, 0];
  }

  /** Offset 30: no compression. */
  lemma CompressionField()
    ensures ReadLe(CreateBmpHeader(), 30, 4) == 0
  {
    assert ReadLe(InfoHeader(), 16, 4) == 0 by {
      assert LeBytes(0, 4) == [0, 0, 0, 0];
    }
    ReadLeAfter(FileHeader(), InfoHeader(), 16, 4);
  }

  /** Offset 34: the pixel data size. */
  lemma ImageSizeField()
    ensures ReadLe(CreateBmpHeader(), 34, 4) == ImageSize
  {
    assert ReadLe(InfoHeader(), 20, 4) == ImageSize by {
      assert LeBytes(ImageSize, 4) == [0x00, 0x84, 0x03, 0x00];
    }
    ReadLeAfter(FileHeader(), InfoHeader(), 20, 4);
  }

  /** Offset 38: horizontal resolution. */
  lemma XResolutionField()
    ensures ReadLe(CreateBmpHeader(), 38, 4) == PixelsPerMetre
  {
    assert ReadLe(InfoHeader(), 24, 4) == PixelsPerMetre by {
      assert LeBytes(PixelsPerMetre, 4) == [0x13, 0x0B, 0, 0];
    }
    ReadLeAfter(FileHeader(), InfoHeader(), 24, 4);
  }

  /** Offset 42: vertical resolution. */
  lemma YResolutionField()
    ensures ReadLe(CreateBmpHeader(), 42, 4) == PixelsPerMetre
  {
    assert ReadLe(InfoHeader(), 28, 4) == PixelsPerMetre by {
      assert LeBytes(PixelsPerMetre, 4) == [0x13, 0x0B, 0, 0];
    }
    ReadLeAfter(FileHeader(), InfoHeader(), 28, 4);
  }

  /** Offsets 46..53: no palette, left as the memset's zeros. */
  lemma PaletteFields()
    ensures CreateBmpHeader()[46..] == [0, 0, 0, 0, 0, 0, 0, 0]
  {
    assert CreateBmpHeader()[46..] == InfoHeader()[32..];
  }
}
