/**
 * The integer pixel decoders applied to a camera frame: RGB565 bit
 * replication and grayscale luma extraction (streamUSB.py), and the
 * fixed-point YUV 4:2:2 decoder of livePreview.c.
 *
 * A frame is 320 x 240 pixels at two bytes per pixel. Both programs read a
 * four-byte group as [Y0, U, Y1, V]. The camera is configured for UYVY
 * packing, though, and that setting is what the grayscale path obeys.
 */
module PixelDecode {
  import opened Common

  const Width := 320
  const Height := 240
  const BytesPerPixel := 2
  const FrameSize := Width * Height * BytesPerPixel

  predicate IsBytes(s: seq<int>) {
    forall i :: 0 <= i < |s| ==> IsByte(s[i])
  }

  // ---------------------------------------------------------------------
  // RGB565 by bit replication
  // ---------------------------------------------------------------------

  /** `(x << 3) | (x >> 2)` for a 5-bit x: the two parts do not overlap. */
  function Replicate5(x: int): (r: int)
    requires 0 <= x < 32
    ensures IsByte(r)
    ensures r / 8 == x
    ensures x == 0 ==> r == 0
    ensures x == 31 ==> r == 255
  {
    x * 8 + x / 4
  }

  /** `(x << 2) | (x >> 4)` for a 6-bit x. */
  function Replicate6(x: int): (r: int)
    requires 0 <= x < 64
    ensures IsByte(r)
    ensures r / 4 == x
    ensures x == 0 ==> r == 0
    ensures x == 63 ==> r == 255
  {
    x * 4 + x / 16
  }

  /** The arithmetic forms agree with the source's shift-and-or on machine words. */
  lemma ReplicateMatchesBits(x: bv16)
    ensures x < 32 ==> ((x << 3) | (x >> 2)) as int == Replicate5(x as int)
    ensures x < 64 ==> ((x << 2) | (x >> 4)) as int == Replicate6(x as int)
  {
  }

  /** Replication is strictly increasing, so distinct levels stay distinct. */
  lemma ReplicateIncreasing(x: int, y: int)
    requires 0 <= x < y < 64
    ensures y < 32 ==> Replicate5(x) < Replicate5(y)
    ensures Replicate6(x) < Replicate6(y)
  {
  }

  /** A pixel's native 5/6/5-bit components. */
  datatype Rgb565 = Rgb565(r5: int, g6: int, b5: int)

  predicate IsRgb565(p: Rgb565) {
    0 <= p.r5 < 32 && 0 <= p.g6 < 64 && 0 <= p.b5 < 32
  }

  /** The 16-bit word a pixel is packed into: red high, blue low. */
  function Pack565(p: Rgb565): (w: int)
    requires IsRgb565(p)
    ensures 0 <= w < 0x1_0000
  {
    p.r5 * 2048 + p.g6 * 32 + p.b5
  }

  /**
   * `(w >> 11) & 0x1F`, `(w >> 5) & 0x3F` and `w & 0x1F`: the three fields
   * cover all 16 bits, so packing them again gives back the word.
   */
  function Unpack565(w: int): (p: Rgb565)
    requires 0 <= w < 0x1_0000
    ensures IsRgb565(p)
    ensures Pack565(p) == w
  {
    Split565(w);
    Rgb565((w / 2048) % 32, (w / 32) % 64, w % 32)
  }

  lemma Split565(w: int)
    requires 0 <= w < 0x1_0000
    ensures 0 <= (w / 2048) % 32 < 32 && 0 <= (w / 32) % 64 < 64
    ensures (w / 2048) % 32 * 2048 + (w / 32) % 64 * 32 + w % 32 == w
  {
    var a, m := w / 2048, w % 2048;
    var b, c := m / 32, m % 32;
    assert a < 32;
    DivModUnique(w, 32, 64 * a + b, c);
    DivModUnique(64 * a + b, 64, a, b);
    DivModUnique(a, 32, 0, a);
  }

  lemma UnpackPack(p: Rgb565)
    requires IsRgb565(p)
    ensures Unpack565(Pack565(p)) == p
  {
    var w := Pack565(p);
    DivModUnique(w, 2048, p.r5, p.g6 * 32 + p.b5);
    DivModUnique(p.r5, 32, 0, p.r5);
    DivModUnique(w, 32, p.r5 * 64 + p.g6, p.b5);
    DivModUnique(p.r5 * 64 + p.g6, 64, p.r5, p.g6);
  }

  function Expand(p: Rgb565): (c: Rgb)
    requires IsRgb565(p)
    ensures IsColour(c)
    ensures c.r / 8 == p.r5 && c.g / 4 == p.g6 && c.b / 8 == p.b5
  {
    Rgb(Replicate5(p.r5), Replicate6(p.g6), Replicate5(p.b5))
  }

  /** The big-endian 16-bit word of pixel i. */
  function WordAt(raw: seq<int>, i: nat): (w: int)
    requires IsBytes(raw) && 2 * i + 1 < |raw|
    ensures 0 <= w < 0x1_0000
  {
    raw[2 * i] * 256 + raw[2 * i + 1]
  }

  /**
   * `yuv422_to_rgb_rgb565`: the buffer read as big-endian 16-bit words and
   * reshaped to height x width, which fails unless it holds exactly
   * 2 * width * height bytes.
   */
  function DecodeRgb565(raw: seq<int>, width: nat, height: nat): (r: Option<seq<Rgb>>)
    requires IsBytes(raw)
    ensures r.Some? <==> |raw| == 2 * width * height
    ensures r.Some? ==> |r.value| == width * height
    ensures r.Some? ==> forall i :: 0 <= i < |r.value| ==> IsColour(r.value[i])
  {
    if |raw| != 2 * width * height then None
    else Some(seq(width * height, i requires 0 <= i < width * height =>
      Expand(Unpack565(WordAt(raw, i)))))
  }

  /** The pixels a buffer of whole pixels carries: each byte pair unpacked. */
  function Words565(raw: seq<int>): (ps: seq<Rgb565>)
    requires IsBytes(raw) && |raw| % 2 == 0
    ensures |ps| == |raw| / 2
    ensures forall i :: 0 <= i < |ps| ==> IsRgb565(ps[i]) && Pack565(ps[i]) == WordAt(raw, i)
  {
    seq(|raw| / 2, i requires 0 <= i < |raw| / 2 => Unpack565(WordAt(raw, i)))
  }

  /** Serialises pixels as big-endian RGB565 words, the camera's format. */
  function Encode565(ps: seq<Rgb565>): (raw: seq<int>)
    requires forall i :: 0 <= i < |ps| ==> IsRgb565(ps[i])
    ensures |raw| == 2 * |ps|
    ensures IsBytes(raw)
  {
    seq(2 * |ps|, k requires 0 <= k < 2 * |ps| =>
      if k % 2 == 0 then Pack565(ps[k / 2]) / 256 else Pack565(ps[k / 2]) % 256)
  }

  /** One pixel through the wire: its two bytes rebuild the word it was packed into. */
  lemma PixelRoundTrip(p: Rgb565)
    requires IsRgb565(p)
    ensures Unpack565(Pack565(p) / 256 * 256 + Pack565(p) % 256) == p
  {
    UnpackPack(p);
  }

  /**
   * Decoding an encoded frame expands every pixel, and the top bits of each
   * decoded channel give back the native component.
   */
  lemma DecodeEncode565(ps: seq<Rgb565>, width: nat, height: nat)
    requires forall i :: 0 <= i < |ps| ==> IsRgb565(ps[i])
    requires |ps| == width * height
    ensures DecodeRgb565(Encode565(ps), width, height).Some?
    ensures forall i :: 0 <= i < |ps| ==>
      DecodeRgb565(Encode565(ps), width, height).value[i] == Expand(ps[i])
    ensures forall i :: 0 <= i < |ps| ==>
      var c := DecodeRgb565(Encode565(ps), width, height).value[i];
      c.r / 8 == ps[i].r5 && c.g / 4 == ps[i].g6 && c.b / 8 == ps[i].b5
  {
    var raw := Encode565(ps);
    var n := |ps|;
    assert |raw| == 2 * width * height;
    var out := DecodeRgb565(raw, width, height).value;
    forall i | 0 <= i < n ensures out[i] == Expand(ps[i]) {
      EncodedWord(ps, i);
      UnpackPack(ps[i]);
    }
  }

  /** The i-th word of an encoded image is the i-th pixel's packed word. */
  lemma EncodedWord(ps: seq<Rgb565>, i: nat)
    requires forall j :: 0 <= j < |ps| ==> IsRgb565(ps[j])
    requires i < |ps|
    ensures WordAt(Encode565(ps), i) == Pack565(ps[i])
  {
    var raw := Encode565(ps);
    assert (2 * i) / 2 == i && (2 * i + 1) / 2 == i && (2 * i) % 2 == 0 && (2 * i + 1) % 2 == 1;
    assert raw[2 * i] == Pack565(ps[i]) / 256 && raw[2 * i + 1] == Pack565(ps[i]) % 256;
  }

  /** Any buffer of whole pixels is the encoding of the pixels it carries. */
  lemma EveryBufferEncoded(raw: seq<int>)
    requires IsBytes(raw) && |raw| % 2 == 0
    ensures Encode565(Words565(raw)) == raw
  {
    var ps := Words565(raw);
    var e := Encode565(ps);
    forall k | 0 <= k < |raw| ensures e[k] == raw[k] {
      var i := k / 2;
      assert k == 2 * i || k == 2 * i + 1;
      DivModUnique(WordAt(raw, i), 256, raw[2 * i], raw[2 * i + 1]);
    }
  }

  /**
   * Decoding whatever bytes arrive: every pixel's colour carries the 5/6/5
   * fields of the received big-endian word in its top bits.
   */
  lemma DecodeAnyBuffer(raw: seq<int>, width: nat, height: nat)
    requires IsBytes(raw) && |raw| == 2 * width * height
    ensures DecodeRgb565(raw, width, height).Some?
    ensures |raw| % 2 == 0 && |raw| / 2 == width * height
    ensures forall i :: 0 <= i < |raw| / 2 ==>
      var c := DecodeRgb565(raw, width, height).value[i];
      c == Expand(Words565(raw)[i]) && Pack565(Rgb565(c.r / 8, c.g / 4, c.b / 8)) == WordAt(raw, i)
  {
    var n := width * height;
    assert |raw| == 2 * n && |raw| % 2 == 0 && |raw| / 2 == n;
    var out := DecodeRgb565(raw, width, height).value;
    var ps := Words565(raw);
    forall i | 0 <= i < n
      ensures out[i] == Expand(ps[i]) && Pack565(Rgb565(out[i].r / 8, out[i].g / 4, out[i].b / 8)) == WordAt(raw, i)
    {
      assert out[i] == Expand(Unpack565(WordAt(raw, i)));
    }
  }

  // ---------------------------------------------------------------------
  // Grayscale
  // ---------------------------------------------------------------------

  datatype Packing = UYVY | YUYV | OtherPacking

  /** `PACKING = "UYVY"`. */
  const CameraPacking := UYVY

  /** `raw[1::2]`. */
  function OddBytes(s: seq<int>): (r: seq<int>)
    ensures |r| == |s| / 2
  {
    seq(|s| / 2, i requires 0 <= i < |s| / 2 => s[2 * i + 1])
  }

  /** `raw[0::2]`. */
  function EvenBytes(s: seq<int>): (r: seq<int>)
    ensures |r| == (|s| + 1) / 2
  {
    seq((|s| + 1) / 2, i requires 0 <= i < (|s| + 1) / 2 => s[2 * i])
  }

  /** The two strided slices split the buffer: every byte is in exactly one. */
  lemma SlicesPartition(s: seq<int>)
    ensures |EvenBytes(s)| + |OddBytes(s)| == |s|
    ensures forall i :: 0 <= i < |s| ==>
      s[i] == if i % 2 == 0 then EvenBytes(s)[i / 2] else OddBytes(s)[i / 2]
  {
  }

  /**
   * The luma plane of `save_image(as_grayscale=True)`; `None` when the
   * packing is unknown or the slice is empty (Python's `if y_data:`).
   */
  function LumaBytes(raw: seq<int>, packing: Packing): (r: Option<seq<int>>)
    ensures r.Some? <==> packing != OtherPacking && |raw| >= (if packing == UYVY then 2 else 1)
    ensures r.Some? ==> IsBytes(raw) ==> IsBytes(r.value)
  {
    var y := match packing
      case UYVY => OddBytes(raw)
      case YUYV => EvenBytes(raw)
      case OtherPacking => [];
    if |y| == 0 then None else Some(y)
  }

  /** One four-byte group read in the [Y0, U, Y1, V] order both decoders use. */
  datatype Group = Group(y0: int, u: int, y1: int, v: int)

  function GroupAt(raw: seq<int>, g: nat): (q: Group)
    requires 4 * g + 3 < |raw|
  {
    Group(raw[4 * g], raw[4 * g + 1], raw[4 * g + 2], raw[4 * g + 3])
  }

  /**
   * A full frame gives exactly one luma byte per pixel. Under the camera's
   * UYVY packing they are bytes 1 and 3 of each group, which the colour
   * decoders read as the chroma samples U and V.
   */
  lemma GrayscaleFrame(raw: seq<int>)
    requires |raw| == FrameSize
    ensures LumaBytes(raw, CameraPacking).Some?
    ensures |LumaBytes(raw, CameraPacking).value| == Width * Height
    ensures forall g :: 0 <= g < Width * Height / 2 ==>
      LumaBytes(raw, CameraPacking).value[2 * g] == GroupAt(raw, g).u &&
      LumaBytes(raw, CameraPacking).value[2 * g + 1] == GroupAt(raw, g).v
  {
    var y := LumaBytes(raw, CameraPacking).value;
    forall g | 0 <= g < Width * Height / 2
      ensures y[2 * g] == raw[4 * g + 1] && y[2 * g + 1] == raw[4 * g + 3]
    {
      assert 2 * (2 * g) + 1 == 4 * g + 1;
      assert 2 * (2 * g + 1) + 1 == 4 * g + 3;
    }
  }

  // ---------------------------------------------------------------------
  // Fixed-point decoder of livePreview.c
  // ---------------------------------------------------------------------

  /** `CLAMP(x)` and `clip(x)`: one saturation to the byte range. */
  function Clip(x: int): (r: int)
    ensures IsByte(r)
    ensures IsByte(x) ==> r == x
    ensures x < 0 ==> r == 0
    ensures x > 255 ==> r == 255
  {
    Clamp(0, 255, x)
  }

  /** `x >> 10` on a two's-complement int: an arithmetic shift, i.e. floor division. */
  function Shr10(x: int): (r: int)
    ensures 1024 * r <= x < 1024 * r + 1024
  {
    x / 1024
  }

  /**
   * The three bytes written for one pixel, in the order the code stores
   * them: the JFIF green formula, then red (1.402 V), then blue (1.772 U),
   * each over 1024.
   */
  function PixelBytes(y: int, u: int, v: int): (r: seq<int>)
    ensures |r| == 3 && IsBytes(r)
  {
    var us, vs := u - 128, v - 128;
    [ Clip(y - Shr10(352 * us) - Shr10(731 * vs)),
      Clip(y + Shr10(1436 * vs)),
      Clip(y + Shr10(1815 * us)) ]
  }

  /** Both pixels of a group share its U and V. */
  function GroupBytes(q: Group): (r: seq<int>)
    ensures |r| == 6 && IsBytes(r)
  {
    PixelBytes(q.y0, q.u, q.v) + PixelBytes(q.y1, q.u, q.v)
  }

  /** Byte k of the decoded frame, as a pure function of the input. */
  function OutByte(raw: seq<int>, k: nat): int
    requires k < |raw| / 4 * 6
  {
    GroupBytes(GroupAt(raw, k / 6))[k % 6]
  }

  /**
   * `yvyu_to_rgb_int_math`: four input bytes per step, six output bytes per
   * step, for the FRAME_SIZE bytes of one frame.
   */
  method YvyuToRgbIntMath(raw: seq<int>) returns (rgb: seq<int>)
    requires |raw| == FrameSize
    ensures |rgb| == Width * Height * 3
    ensures IsBytes(rgb)
    ensures forall k :: 0 <= k < |rgb| ==> rgb[k] == OutByte(raw, k)
  {
    rgb := [];
    var i, j := 0, 0;
    ghost var g := 0;
    while i < FrameSize
      invariant 0 <= g <= FrameSize / 4 && i == 4 * g && j == 6 * g && |rgb| == j
      invariant forall k :: 0 <= k < j ==> rgb[k] == OutByte(raw, k)
      invariant IsBytes(rgb)
    {
      assert i / 4 == g;
      var out := GroupBytes(GroupAt(raw, i / 4));
      OutBytesOfGroup(raw, g);
      forall k | 0 <= k < j + 6 ensures (rgb + out)[k] == OutByte(raw, k) {
        if k < j {
          assert (rgb + out)[k] == rgb[k];
        } else {
          assert (rgb + out)[k] == out[k - j];
        }
      }
      rgb := rgb + out;
      i, j, g := i + 4, j + 6, g + 1;
    }
  }

  /** The six output bytes of group g are that group's pixel bytes. */
  lemma OutBytesOfGroup(raw: seq<int>, g: nat)
    requires 6 * g + 6 <= |raw| / 4 * 6
    ensures forall k :: 6 * g <= k < 6 * g + 6 ==> OutByte(raw, k) == GroupBytes(GroupAt(raw, g))[k - 6 * g]
  {
    forall k | 6 * g <= k < 6 * g + 6 ensures OutByte(raw, k) == GroupBytes(GroupAt(raw, g))[k - 6 * g] {
      DivModUnique(k, 6, g, k - 6 * g);
    }
  }

  /** With neutral chroma every output byte of a pixel is its luma sample. */
  lemma ZeroChromaIsGray(y: int)
    requires IsByte(y)
    ensures PixelBytes(y, 128, 128) == [y, y, y]
  {
  }

  // The real-valued JFIF matrix (ITU-T T.871 clause 7) with Cb = U and Cr = V.

  function ClipReal(x: real): (r: real)
    ensures 0.0 <= r <= 255.0
  {
    if x < 0.0 then 0.0 else if x > 255.0 then 255.0 else x
  }

  function JfifRed(y: int, u: int, v: int): real {
    y as real + 1.402 * (v - 128) as real
  }

  function JfifGreen(y: int, u: int, v: int): real {
    y as real - 0.344136 * (u - 128) as real - 0.714136 * (v - 128) as real
  }

  function JfifBlue(y: int, u: int, v: int): real {
    y as real + 1.772 * (u - 128) as real
  }

  function Abs(x: real): real {
    if x < 0.0 then -x else x
  }

  /** Saturation never widens a gap. */
  lemma ClipCloser(a: int, b: real, e: real)
    requires Abs(a as real - b) < e
    ensures Abs(Clip(a) as real - ClipReal(b)) < e
  {
  }

  /**
   * The fixed-point bytes stay within one unit (red, blue) or two units
   * (green, whose two terms are each floored) of the clipped JFIF values,
   * written in the order green, red, blue.
   */
  lemma PixelBytesApproximateJfif(y: int, u: int, v: int)
    requires IsByte(y) && IsByte(u) && IsByte(v)
    ensures Abs(PixelBytes(y, u, v)[0] as real - ClipReal(JfifGreen(y, u, v))) < 2.1
    ensures Abs(PixelBytes(y, u, v)[1] as real - ClipReal(JfifRed(y, u, v))) < 1.1
    ensures Abs(PixelBytes(y, u, v)[2] as real - ClipReal(JfifBlue(y, u, v))) < 1.1
  {
    GreenApproximate(y, u, v);
    RedApproximate(y, u, v);
    BlueApproximate(y, u, v);
  }

  lemma GreenApproximate(y: int, u: int, v: int)
    requires IsByte(y) && IsByte(u) && IsByte(v)
    ensures Abs(PixelBytes(y, u, v)[0] as real - ClipReal(JfifGreen(y, u, v))) < 2.1
  {
    var us, vs := u - 128, v - 128;
    var a, b := Shr10(352 * us), Shr10(731 * vs);
    assert 1024.0 * a as real <= 352.0 * us as real < 1024.0 * a as real + 1024.0;
    assert 1024.0 * b as real <= 731.0 * vs as real < 1024.0 * b as real + 1024.0;
    assert Abs((y - a - b) as real - JfifGreen(y, u, v)) < 2.1;
    ClipCloser(y - a - b, JfifGreen(y, u, v), 2.1);
  }

  lemma RedApproximate(y: int, u: int, v: int)
    requires IsByte(y) && IsByte(u) && IsByte(v)
    ensures Abs(PixelBytes(y, u, v)[1] as real - ClipReal(JfifRed(y, u, v))) < 1.1
  {
    var vs := v - 128;
    var c := Shr10(1436 * vs);
    assert 1024.0 * c as real <= 1436.0 * vs as real < 1024.0 * c as real + 1024.0;
    assert Abs((y + c) as real - JfifRed(y, u, v)) < 1.1;
    ClipCloser(y + c, JfifRed(y, u, v), 1.1);
  }

  lemma BlueApproximate(y: int, u: int, v: int)
    requires IsByte(y) && IsByte(u) && IsByte(v)
    ensures Abs(PixelBytes(y, u, v)[2] as real - ClipReal(JfifBlue(y, u, v))) < 1.1
  {
    var us := u - 128;
    var d := Shr10(1815 * us);
    assert 1024.0 * d as real <= 1815.0 * us as real < 1024.0 * d as real + 1024.0;
    assert Abs((y + d) as real - JfifBlue(y, u, v)) < 1.1;
    ClipCloser(y + d, JfifBlue(y, u, v), 1.1);
  }
}
