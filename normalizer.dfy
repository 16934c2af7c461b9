/**
 * The normaliser of `process_image_internal` / `process_clipboard_image`: force every alpha byte
 * to 255 in place, wrap the buffer as a `width x height` RGBA8 image, PNG-encode it, base64 the
 * PNG bytes and prefix the result with `data:image/png;base64,`.
 *
 * The PNG encoder and the base64 engine belong to libraries outside this model; they are passed
 * in as a `Codec` value, and the PNG encoder may fail.
 */
module Normalizer {
  import opened Wrappers
  import opened Ints
  import ImageHash

  const OPAQUE: Byte := 255

  /** The media-type prefix of the transport payload. */
  const DATA_URL_PREFIX := "data:image/png;base64,"

  /** The error when the buffer is too small for the declared dimensions. */
  const BUFFER_ERROR := "Failed to create image buffer"

  /** The prefix of the error when the PNG encoder fails; the encoder's message follows it. */
  const PNG_ERROR := "PNG encoding failed: "

  /** `ImageBuffer<Rgba<u8>, Vec<u8>>`: row-major RGBA8 pixels, no padding. */
  datatype RgbaImage = RgbaImage(width: U32, height: U32, pixels: seq<Byte>)

  /** `ProcessedImage`: the payload and the dimensions, echoed twice. */
  datatype ProcessedImage = ProcessedImage(
    base64Data: string,
    width: U32,
    height: U32,
    originalWidth: U32,
    originalHeight: U32)

  /**
   * The library calls the normaliser relies on: `write_to(.., ImageFormat::Png)` (which may fail
   * with a message) and `general_purpose::STANDARD.encode`.
   */
  datatype Codec = Codec(encodePng: RgbaImage -> Result<seq<Byte>, string>, base64: seq<Byte> -> string)

  // ---------------------------------------------------------------------------------------------
  // Alpha repair

  /** The buffer with each complete pixel's alpha byte set to 255, pixel by pixel. */
  function AlphaRepaired(s: seq<Byte>): (r: seq<Byte>)
    ensures |r| == |s|
    decreases |s|
  {
    if |s| < 4 then s else s[..3] + [OPAQUE] + AlphaRepaired(s[4..])
  }

  /** Every byte at an index `3 mod 4` becomes 255, and every other byte keeps its value. */
  lemma {:induction false} AlphaRepairedAt(s: seq<Byte>, i: nat)
    requires i < |s|
    ensures AlphaRepaired(s)[i] == if i % 4 == 3 then OPAQUE else s[i]
    decreases |s|
  {
    if |s| >= 4 && i >= 4 {
      AlphaRepairedAt(s[4..], i - 4);
    }
  }

  /** Repairing twice changes nothing more. */
  lemma AlphaRepairIdempotent(s: seq<Byte>)
    ensures AlphaRepaired(AlphaRepaired(s)) == AlphaRepaired(s)
  {
    var r := AlphaRepaired(s);
    forall i | 0 <= i < |s|
      ensures AlphaRepaired(r)[i] == r[i]
    {
      AlphaRepairedAt(s, i);
      AlphaRepairedAt(r, i);
    }
  }

  /** The repaired buffer keeps every R, G and B byte: the fingerprint cannot tell them apart. */
  lemma FingerprintOfRepaired(s: seq<Byte>, width: U32, height: U32)
    ensures ImageHash.Fingerprint(AlphaRepaired(s), width, height) == ImageHash.Fingerprint(s, width, height)
  {
    forall k | 0 <= k < |s| && k % 4 != 3
      ensures AlphaRepaired(s)[k] == s[k]
    {
      AlphaRepairedAt(s, k);
    }
    ImageHash.FingerprintIgnoresAlpha(AlphaRepaired(s), s, width, height);
  }

  /** The loop `for i in (3..len).step_by(4) { fixed_rgba[i] = 255 }`. */
  method RepairAlpha(a: array<Byte>)
    modifies a
    ensures a[..] == AlphaRepaired(old(a[..]))
  {
    var i := 3;
    while i < a.Length
      invariant i % 4 == 3
      invariant forall k :: 0 <= k < a.Length ==>
                  a[k] == if k % 4 == 3 && k < i then OPAQUE else old(a[k])
      decreases a.Length - i
    {
      a[i] := OPAQUE;
      i := i + 4;
    }
    forall k | 0 <= k < a.Length
      ensures a[k] == AlphaRepaired(old(a[..]))[k]
    {
      AlphaRepairedAt(old(a[..]), k);
    }
  }

  // ---------------------------------------------------------------------------------------------
  // Wrapping and encoding

  /** `ImageBuffer::from_raw`: accepts a buffer holding at least `width * height * 4` bytes. */
  function FromRaw(width: U32, height: U32, buf: seq<Byte>): (r: Option<RgbaImage>)
    ensures r.Some? <==> width * height * 4 <= |buf|
    ensures r.Some? ==> r.value == RgbaImage(width, height, buf)
  {
    if width * height * 4 <= |buf| then Some(RgbaImage(width, height, buf)) else None
  }

  /** What `process_image_internal` returns for a buffer and its declared dimensions. */
  function Normalize(data: seq<Byte>, width: U32, height: U32, codec: Codec): (r: Result<ProcessedImage, string>)
    ensures r.Ok? ==> width * height * 4 <= |data|
    ensures r.Ok? ==> r.value.width == r.value.originalWidth == width
                      && r.value.height == r.value.originalHeight == height
    ensures r.Err? ==> r.error == BUFFER_ERROR || PNG_ERROR <= r.error
  {
    match FromRaw(width, height, AlphaRepaired(data))
    case None => Err(BUFFER_ERROR)
    case Some(image) =>
      match codec.encodePng(image)
      case Err(e) => Err(PNG_ERROR + e)
      case Ok(png) => Ok(ProcessedImage(DATA_URL_PREFIX + codec.base64(png), width, height, width, height))
  }

  /**
   * The outcomes of normalisation: a buffer too short for the dimensions is refused before any
   * encoding, an encoder failure is reported with its message, and a success carries a data URL
   * and echoes the input dimensions.
   */
  lemma NormalizeOutcomes(data: seq<Byte>, width: U32, height: U32, codec: Codec)
    ensures var r := Normalize(data, width, height, codec);
      var image := RgbaImage(width, height, AlphaRepaired(data));
      && (|data| < width * height * 4 ==> r == Err(BUFFER_ERROR))
      && (|data| >= width * height * 4 && codec.encodePng(image).Err? ==>
            r == Err(PNG_ERROR + codec.encodePng(image).error))
      && (r.Ok? <==> |data| >= width * height * 4 && codec.encodePng(image).Ok?)
      && (r.Ok? ==>
            |DATA_URL_PREFIX| <= |r.value.base64Data|
            && r.value.base64Data[..|DATA_URL_PREFIX|] == DATA_URL_PREFIX
            && r.value.width == r.value.originalWidth == width
            && r.value.height == r.value.originalHeight == height)
  {
    var r := Normalize(data, width, height, codec);
    if r.Ok? {
      assert r.value.base64Data[..|DATA_URL_PREFIX|] == DATA_URL_PREFIX;
    }
  }

  /** An image whose buffer holds exactly its `width * height` pixels, as a decoded PNG does. */
  predicate Exact(image: RgbaImage) {
    |image.pixels| == image.width * image.height * 4
  }

  /** The pixels the image's dimensions cover: the first `width * height * 4` bytes. */
  function Trimmed(image: RgbaImage): (t: RgbaImage)
    requires image.width * image.height * 4 <= |image.pixels|
    ensures Exact(t) && t.width == image.width && t.height == image.height
    ensures t.pixels <= image.pixels
  {
    RgbaImage(image.width, image.height, image.pixels[..image.width * image.height * 4])
  }

  /**
   * The codec does not lose information: the PNG encoder reads only the pixels the dimensions
   * cover, it has a left inverse on images of exactly that size, and base64 has a left inverse.
   */
  ghost predicate Lossless(codec: Codec, decodePng: seq<Byte> -> Option<RgbaImage>, decodeBase64: string -> seq<Byte>) {
    && (forall image: RgbaImage :: image.width * image.height * 4 <= |image.pixels| ==>
          codec.encodePng(image) == codec.encodePng(Trimmed(image)))
    && (forall image: RgbaImage :: Exact(image) && codec.encodePng(image).Ok? ==>
          decodePng(codec.encodePng(image).value) == Some(image))
    && (forall bytes :: decodeBase64(codec.base64(bytes)) == bytes)
  }

  /**
   * With a lossless codec, decoding the payload after the prefix gives back the alpha-repaired
   * pixels the dimensions cover; bytes past `width * height * 4` are not part of the PNG.
   */
  lemma RoundTrip(data: seq<Byte>, width: U32, height: U32, codec: Codec,
                  decodePng: seq<Byte> -> Option<RgbaImage>, decodeBase64: string -> seq<Byte>)
    requires Lossless(codec, decodePng, decodeBase64)
    requires Normalize(data, width, height, codec).Ok?
    ensures width * height * 4 <= |data|
    ensures var payload := Normalize(data, width, height, codec).value.base64Data;
      |DATA_URL_PREFIX| <= |payload|
      && decodePng(decodeBase64(payload[|DATA_URL_PREFIX|..]))
         == Some(RgbaImage(width, height, AlphaRepaired(data)[..width * height * 4]))
  {
    var image := RgbaImage(width, height, AlphaRepaired(data));
    var png := codec.encodePng(image).value;
    assert codec.encodePng(image) == codec.encodePng(Trimmed(image));
    var payload := Normalize(data, width, height, codec).value.base64Data;
    assert payload == DATA_URL_PREFIX + codec.base64(png);
    assert payload[|DATA_URL_PREFIX|..] == codec.base64(png);
  }

  // A concrete lossless codec, so that `Lossless` is known to be satisfiable: a container of the
  // big-endian width, the big-endian height and the covered pixels, and bytes as chars.

  function BigEndian(n: U32): (b: seq<Byte>)
    ensures |b| == 4
  {
    [n / 0x100_0000, (n / 0x1_0000) % 256, (n / 256) % 256, n % 256]
  }

  function FromBigEndian(b: seq<Byte>): nat
    requires |b| == 4
  {
    ((b[0] as int * 256 + b[1]) * 256 + b[2]) * 256 + b[3]
  }

  lemma BigEndianRoundTrip(n: U32)
    ensures FromBigEndian(BigEndian(n)) == n
  {
    var q1, r0 := n / 256, n % 256;
    var q2, r1 := q1 / 256, q1 % 256;
    var q3, r2 := q2 / 256, q2 % 256;
    assert n / 0x1_0000 == q2 && n / 0x100_0000 == q3;
    assert n == q1 * 256 + r0 && q1 == q2 * 256 + r1 && q2 == q3 * 256 + r2;
  }

  function ContainerEncode(image: RgbaImage): Result<seq<Byte>, string> {
    if image.width * image.height * 4 <= |image.pixels| then
      Ok(BigEndian(image.width) + BigEndian(image.height) + image.pixels[..image.width * image.height * 4])
    else Err("buffer too short")
  }

  function ContainerDecode(bytes: seq<Byte>): Option<RgbaImage> {
    if |bytes| < 8 then None
    else
      var width := FromBigEndian(bytes[..4]);
      var height := FromBigEndian(bytes[4..8]);
      if width < TWO_32 && height < TWO_32 && |bytes| - 8 == width * height * 4
      then Some(RgbaImage(width, height, bytes[8..]))
      else None
  }

  function BytesAsChars(bytes: seq<Byte>): string {
    seq(|bytes|, i requires 0 <= i < |bytes| => bytes[i] as char)
  }

  function CharsAsBytes(s: string): seq<Byte> {
    seq(|s|, i requires 0 <= i < |s| => (s[i] as int) % 256)
  }

  lemma ContainerDecodes(image: RgbaImage)
    requires Exact(image)
    ensures ContainerDecode(ContainerEncode(image).value) == Some(image)
  {
    var bytes := ContainerEncode(image).value;
    assert bytes[..4] == BigEndian(image.width);
    assert bytes[4..8] == BigEndian(image.height);
    assert bytes[8..] == image.pixels;
    BigEndianRoundTrip(image.width);
    BigEndianRoundTrip(image.height);
  }

  /** The container codec meets `Lossless`, so `RoundTrip`'s hypothesis can hold. */
  lemma ContainerCodecIsLossless()
    ensures Lossless(Codec(ContainerEncode, BytesAsChars), ContainerDecode, CharsAsBytes)
  {
    var codec := Codec(ContainerEncode, BytesAsChars);
    forall image: RgbaImage | image.width * image.height * 4 <= |image.pixels|
      ensures codec.encodePng(image) == codec.encodePng(Trimmed(image))
    {
      var n := image.width * image.height * 4;
      assert image.pixels[..n][..n] == image.pixels[..n];
    }
    forall image: RgbaImage | Exact(image) && codec.encodePng(image).Ok?
      ensures ContainerDecode(codec.encodePng(image).value) == Some(image)
    {
      ContainerDecodes(image);
    }
    forall bytes: seq<Byte>
      ensures CharsAsBytes(codec.base64(bytes)) == bytes
    {
      assert CharsAsBytes(BytesAsChars(bytes)) == bytes;
    }
  }

  /**
   * `process_image_internal`: the buffer it owns is repaired in place, then wrapped, encoded and
   * turned into a data URL.
   */
  method ProcessImageInternal(data: array<Byte>, width: U32, height: U32, codec: Codec)
    returns (r: Result<ProcessedImage, string>)
    modifies data
    ensures data[..] == AlphaRepaired(old(data[..]))
    ensures r == Normalize(old(data[..]), width, height, codec)
  {
    RepairAlpha(data);
    var buffer := FromRaw(width, height, data[..]);
    if buffer.None? {
      return Err(BUFFER_ERROR);
    }
    var png := codec.encodePng(buffer.value);
    if png.Err? {
      return Err(PNG_ERROR + png.error);
    }
    var dataUrl := DATA_URL_PREFIX + codec.base64(png.value);
    r := Ok(ProcessedImage(dataUrl, width, height, width, height));
  }

  /** `process_clipboard_image`, the command: takes the bytes by value and does the same work. */
  method ProcessClipboardImage(rgba: seq<Byte>, width: U32, height: U32, codec: Codec)
    returns (r: Result<ProcessedImage, string>)
    ensures r == Normalize(rgba, width, height, codec)
  {
    var buffer := new Byte[|rgba|](i requires 0 <= i < |rgba| => rgba[i]);
    assert buffer[..] == rgba;
    r := ProcessImageInternal(buffer, width, height, codec);
  }
}
