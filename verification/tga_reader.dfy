/** The image decoder: Truevision TGA, uncompressed true-colour images
    (image type 2) at 24 or 32 bits per pixel, turned into an RGB(A)
    pixel buffer. Orientation flags are not honoured; rows are taken as
    they come. */
module TgaReader {
  import opened Wire

  /** The packed 18-byte header (`#pragma pack(1)`, little-endian). */
  const HEADER_SIZE: nat := 18
  const TRUE_COLOR: nat := 2

  datatype TgaHeader = TgaHeader(
    idLength: nat, colorMapType: nat, imageType: nat,
    colorMapOrigin: nat, colorMapLength: nat, colorMapDepth: nat,
    xOrigin: nat, yOrigin: nat, width: nat, height: nat,
    bitsPerPixel: nat, imageDescriptor: nat)

  /** The decoded picture: `ImageInfo` with its own copy of the pixels. */
  datatype ImageInfo = ImageInfo(width: nat, height: nat, bitsPerPixel: nat, data: seq<byte>)

  /** Why `ReadTGA` gave back no image (the source logs a message and returns null). */
  datatype TgaError = Unreadable | TooShort | UnsupportedType(imageType: nat)
                    | UnsupportedDepth(bitsPerPixel: nat) | Truncated

  datatype TgaResult = Decoded(image: ImageInfo) | Rejected(error: TgaError)

  function U16(b: seq<byte>, i: nat): nat
    requires i + 2 <= |b|
  {
    (b[i] as nat) + 256 * (b[i + 1] as nat)
  }

  /** The header fields, read from the first 18 bytes. */
  function ParseHeader(b: seq<byte>): (h: TgaHeader)
    requires |b| >= HEADER_SIZE
    ensures Representable(h)
    ensures h.imageType == b[2] as nat && h.bitsPerPixel == b[16] as nat
  {
    TgaHeader(b[0], b[1], b[2], U16(b, 3), U16(b, 5), b[7],
              U16(b, 8), U16(b, 10), U16(b, 12), U16(b, 14), b[16], b[17])
  }

  /** Each field fits its width in the packed layout. */
  predicate Representable(h: TgaHeader)
  {
    h.idLength < 256 && h.colorMapType < 256 && h.imageType < 256 &&
    h.colorMapOrigin < 65536 && h.colorMapLength < 65536 && h.colorMapDepth < 256 &&
    h.xOrigin < 65536 && h.yOrigin < 65536 && h.width < 65536 && h.height < 65536 &&
    h.bitsPerPixel < 256 && h.imageDescriptor < 256
  }

  function LE16(v: nat): (s: seq<byte>)
    requires v < 65536
  {
    [v % 256, v / 256]
  }

  /** The 18 header bytes a writer of the format produces for `h`. */
  function EncodeHeader(h: TgaHeader): (s: seq<byte>)
    requires Representable(h)
    ensures |s| == HEADER_SIZE
  {
    [h.idLength, h.colorMapType, h.imageType] + LE16(h.colorMapOrigin) + LE16(h.colorMapLength) +
    [h.colorMapDepth] + LE16(h.xOrigin) + LE16(h.yOrigin) + LE16(h.width) + LE16(h.height) +
    [h.bitsPerPixel, h.imageDescriptor]
  }

  /** Reading the header back recovers every field, whatever follows it. */
  lemma HeaderRoundTrip(h: TgaHeader, rest: seq<byte>)
    requires Representable(h)
    ensures ParseHeader(EncodeHeader(h) + rest) == h
  {
    var b := EncodeHeader(h) + rest;
    assert b[3] == h.colorMapOrigin % 256 && b[4] == h.colorMapOrigin / 256;
    assert b[12] == h.width % 256 && b[13] == h.width / 256;
  }

  /** Where the pixels start: after the header, the image ID and, only when
      a colour map is present, the colour map entries. A representable
      header puts the start below 2^31, so the `int` offset cannot wrap. */
  function DataOffset(h: TgaHeader): (o: nat)
    ensures o >= HEADER_SIZE + h.idLength
    ensures h.colorMapType == 0 ==> o == HEADER_SIZE + h.idLength
    ensures Representable(h) ==> o < 0x8000_0000
  {
    PairBound(h.colorMapLength, h.colorMapDepth / 8);
    HEADER_SIZE + h.idLength +
    (if h.colorMapType != 0 then h.colorMapLength * (h.colorMapDepth / 8) else 0)
  }

  /** The pixel bytes: 3 per pixel at 24 bits, 4 at 32. A representable
      header can ask for far more than 2^31 bytes. */
  function ImageSize(h: TgaHeader): (n: nat)
    ensures h.bitsPerPixel == 24 ==> n == 3 * (h.width * h.height)
    ensures h.bitsPerPixel == 32 ==> n == 4 * (h.width * h.height)
    ensures Representable(h) ==> n <= 65535 * 65535 * 31
  {
    ProductBound(h.width, h.height, h.bitsPerPixel / 8);
    h.width * h.height * (h.bitsPerPixel / 8)
  }

  /** A 16-bit word times a byte divided by 8 stays below 65535 * 31. */
  lemma PairBound(a: nat, c: nat)
    ensures a <= 65535 && c <= 31 ==> a * c <= 65535 * 31
  {
    if a <= 65535 && c <= 31 {
      MulMonotone(a, 65535, c);
      MulMonotone(c, 31, 65535);
    }
  }

  /** Products of two 16-bit words and a byte divided by 8 stay below the
      product of their largest values. */
  lemma ProductBound(a: nat, b: nat, c: nat)
    ensures a <= 65535 && b <= 65535 && c <= 31 ==> a * b * c <= 65535 * 65535 * 31
  {
    if a <= 65535 && b <= 65535 && c <= 31 {
      MulMonotone(a, 65535, b);
      MulMonotone(b, 65535, 65535);
      MulMonotone(a * b, 65535 * 65535, c);
      MulMonotone(c, 31, 65535 * 65535);
    }
  }

  /** Which source byte of its pixel an output byte comes from: R, G, B are
      source bytes 2, 1, 0 and alpha stays in place. */
  function Lane(c: nat): nat
  {
    if c == 0 then 2 else if c == 2 then 0 else c
  }

  /** The pixel bytes with blue and red exchanged in every pixel of `b` bytes. */
  function SwapRedBlue(px: seq<byte>, b: nat): (out: seq<byte>)
    requires b == 3 || b == 4
    requires |px| % b == 0
    ensures |out| == |px|
  {
    seq(|px|, k requires 0 <= k < |px| =>
      PixelLaneBound(k, b, |px|);
      px[(k / b) * b + Lane(k % b)])
  }

  lemma PixelLaneBound(k: nat, b: nat, n: nat)
    requires b == 3 || b == 4
    requires k < n && n % b == 0
    ensures (k / b) * b + Lane(k % b) < n
  {
    if b == 3 {
      assert (k / 3) * 3 + 3 <= n;
    } else {
      assert (k / 4) * 4 + 4 <= n;
    }
  }

  /** A whole number of `b`-byte pixels. */
  lemma ImageSizeMultiple(h: TgaHeader)
    requires h.bitsPerPixel == 24 || h.bitsPerPixel == 32
    ensures ImageSize(h) % (h.bitsPerPixel / 8) == 0
  {
    var n := h.width * h.height;
    if h.bitsPerPixel == 24 {
      assert ImageSize(h) == n * 3;
    } else {
      assert ImageSize(h) == n * 4;
    }
  }

  lemma DivModPixel(i: nat, c: nat, b: nat)
    requires b == 3 || b == 4
    requires c < b
    ensures (i * b + c) / b == i && (i * b + c) % b == c
  {
  }

  /** Output byte R, G, B of pixel `i` is source byte 2, 1, 0 of that pixel,
      and a 32-bit pixel keeps its alpha byte. */
  lemma PixelChannels(px: seq<byte>, b: nat, i: nat)
    requires b == 3 || b == 4
    requires |px| % b == 0 && (i + 1) * b <= |px|
    ensures SwapRedBlue(px, b)[i * b] == px[i * b + 2]
    ensures SwapRedBlue(px, b)[i * b + 1] == px[i * b + 1]
    ensures SwapRedBlue(px, b)[i * b + 2] == px[i * b]
    ensures b == 4 ==> SwapRedBlue(px, b)[i * b + 3] == px[i * b + 3]
  {
    DivModPixel(i, 0, b);
    DivModPixel(i, 1, b);
    DivModPixel(i, 2, b);
    if b == 4 {
      DivModPixel(i, 3, b);
    }
  }

  /** Swapping twice gives the pixels back: no byte is lost or invented. */
  lemma SwapInvolution(px: seq<byte>, b: nat)
    requires b == 3 || b == 4
    requires |px| % b == 0
    ensures SwapRedBlue(SwapRedBlue(px, b), b) == px
  {
    var once := SwapRedBlue(px, b);
    forall k | 0 <= k < |px|
      ensures SwapRedBlue(once, b)[k] == px[k]
    {
      var q, c := k / b, k % b;
      assert k == q * b + c;
      PixelLaneBound(k, b, |px|);
      DivModPixel(q, Lane(c), b);
    }
  }

  /** `ReadTGA` on bytes already read from the file. */
  function Decode(file: seq<byte>): (r: TgaResult)
    ensures |file| < HEADER_SIZE ==> r == Rejected(TooShort)
    ensures |file| >= HEADER_SIZE && ParseHeader(file).imageType != TRUE_COLOR ==>
      r == Rejected(UnsupportedType(ParseHeader(file).imageType))
    ensures r.Decoded? <==>
      |file| >= HEADER_SIZE &&
      ParseHeader(file).imageType == TRUE_COLOR &&
      ParseHeader(file).bitsPerPixel in {24, 32} &&
      |file| >= DataOffset(ParseHeader(file)) + ImageSize(ParseHeader(file))
    ensures r.Decoded? ==>
      var h := ParseHeader(file);
      r.image.width == h.width && r.image.height == h.height &&
      r.image.bitsPerPixel == h.bitsPerPixel &&
      |r.image.data| == ImageSize(h) &&
      ImageSize(h) % (h.bitsPerPixel / 8) == 0 &&
      r.image.data == SwapRedBlue(file[DataOffset(h)..DataOffset(h) + ImageSize(h)], h.bitsPerPixel / 8)
  {
    if |file| < HEADER_SIZE then Rejected(TooShort)
    else
      var h := ParseHeader(file);
      if h.imageType != TRUE_COLOR then Rejected(UnsupportedType(h.imageType))
      else if h.bitsPerPixel != 24 && h.bitsPerPixel != 32 then Rejected(UnsupportedDepth(h.bitsPerPixel))
      else if |file| < DataOffset(h) + ImageSize(h) then Rejected(Truncated)
      else
        var b := h.bitsPerPixel / 8;
        var off := DataOffset(h);
        ImageSizeMultiple(h);
        Decoded(ImageInfo(h.width, h.height, h.bitsPerPixel,
                          SwapRedBlue(file[off..off + ImageSize(h)], b)))
  }

  lemma MulMonotone(a: nat, c: nat, b: nat)
    requires a <= c
    ensures a * b <= c * b
  {
  }

  /** One pass of the copy loop: pixel `i`, at byte `idx`, is copied with
      blue and red exchanged; the pixels before it stay. */
  method SwapPixel(imageData: array<byte>, src: seq<byte>, b: nat, i: nat, idx: nat, ghost want: seq<byte>)
    requires b == 3 || b == 4
    requires |src| % b == 0 && idx == i * b && (i + 1) * b <= |src| && imageData.Length == |src|
    requires want == SwapRedBlue(src, b)
    requires forall k :: 0 <= k < idx ==> imageData[k] == want[k]
    modifies imageData
    ensures forall k :: 0 <= k < idx + b ==> imageData[k] == want[k]
  {
    assert (i + 1) * b == idx + b;
    PixelChannels(src, b, i);
    imageData[idx] := src[idx + 2];
    imageData[idx + 1] := src[idx + 1];
    imageData[idx + 2] := src[idx];
    if b == 4 {
      imageData[idx + 3] := src[idx + 3];
    }
  }

  /** The copy loop of `ReadTGA`: a fresh buffer of `pixels` pixels of `b`
      bytes, filled pixel by pixel with blue and red exchanged. */
  method CopySwapped(src: seq<byte>, b: nat, pixels: nat) returns (imageData: array<byte>)
    requires b == 3 || b == 4
    requires |src| == pixels * b
    ensures fresh(imageData)
    ensures |src| % b == 0 && imageData[..] == SwapRedBlue(src, b)
  {
    assert |src| % b == 0 by {
      if b == 3 { assert |src| == pixels * 3; } else { assert |src| == pixels * 4; }
    }
    imageData := new byte[|src|];
    ghost var want := SwapRedBlue(src, b);
    var i, idx := 0, 0;
    while i < pixels
      invariant 0 <= i <= pixels && idx == i * b
      invariant forall k :: 0 <= k < idx ==> imageData[k] == want[k]
    {
      MulMonotone(i + 1, pixels, b);
      SwapPixel(imageData, src, b, i, idx, want);
      i, idx := i + 1, idx + b;
    }
    assert idx == |src|;
    assert imageData[..] == want;
  }

  /** `ReadTGA(filepath)`: the file comes from the file system map, the
      checks are those of `Decode`, and the pixels are copied into a freshly
      allocated buffer. */
  method ReadTGA(files: map<Path, seq<byte>>, path: Path) returns (r: TgaResult)
    ensures path !in files ==> r == Rejected(Unreadable)
    ensures path in files ==> r == Decode(files[path])
  {
    if path !in files {
      return Rejected(Unreadable);
    }
    var file := files[path];
    if |file| < HEADER_SIZE {
      return Rejected(TooShort);
    }
    var h := ParseHeader(file);
    if h.imageType != TRUE_COLOR {
      return Rejected(UnsupportedType(h.imageType));
    }
    var width, height, bpp := h.width, h.height, h.bitsPerPixel;
    if bpp != 24 && bpp != 32 {
      return Rejected(UnsupportedDepth(bpp));
    }
    var bytesPerPixel := bpp / 8;
    var imageSize := width * height * bytesPerPixel;
    var dataOffset := DataOffset(h);
    if |file| < dataOffset + imageSize {
      return Rejected(Truncated);
    }
    var imageData := CopySwapped(file[dataOffset..dataOffset + imageSize], bytesPerPixel, width * height);
    r := Decoded(ImageInfo(width, height, bpp, imageData[..]));
  }

  /** `v` stored in a 32-bit `int` (two's complement wrap-around). */
  function Wrap32(v: int): (w: int)
    ensures InInt32(w) && (w - v) % TWO_32 == 0
  {
    var u := v % TWO_32;
    if u >= TWO_31 then u - TWO_32 else u
  }

  /** The length test as the source computes it: `width * height *
      bytesPerPixel` and `dataOffset + imageSize` are `int` arithmetic, and
      the sum is converted to `size_t` to be compared with the file size. */
  function SizeCheckRejectsAsWritten(fileLen: nat, h: TgaHeader): (rejects: bool)
    ensures DataOffset(h) + ImageSize(h) < TWO_31 ==> (rejects <==> fileLen < DataOffset(h) + ImageSize(h))
  {
    var imageSize := Wrap32(h.width * h.height * (h.bitsPerPixel / 8));
    var limit := Wrap32(DataOffset(h) + imageSize);
    fileLen < (if limit < 0 then limit + TWO_64 else limit)
  }

  /** A bare 18-byte header announcing a 32768 x 32768, 32-bit image passes
      the source's length test, because 32768 * 32768 * 4 = 2^32 wraps to 0,
      although its pixel region would need 2^32 bytes; `Decode` rejects it. */
  lemma OverflowAdmitsShortFile()
    ensures var h := TgaHeader(0, 0, 2, 0, 0, 0, 0, 0, 32768, 32768, 32, 0);
      var file := EncodeHeader(h);
      ParseHeader(file) == h &&
      !SizeCheckRejectsAsWritten(|file|, h) &&
      |file| < DataOffset(h) + ImageSize(h) &&
      Decode(file) == Rejected(Truncated)
  {
    var h := TgaHeader(0, 0, 2, 0, 0, 0, 0, 0, 32768, 32768, 32, 0);
    HeaderRoundTrip(h, []);
    assert EncodeHeader(h) + [] == EncodeHeader(h);
    assert h.width * h.height * (h.bitsPerPixel / 8) == TWO_32;
    assert Wrap32(TWO_32) == 0;
  }
}
