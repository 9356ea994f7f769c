/**
 * The sprite sheet: an RGBA-8 image together with its metadata table, the raw
 * image codec (version byte 0, width and height as u32 LE, then the pixel
 * bytes), the single-stream container that puts the image section before the
 * mapping section, and the crop that cuts one named sprite out of the sheet.
 */
module Sheet {
  import opened Results
  import opened Bytes
  import opened Utf8
  import opened Streams
  import opened Mapping

  const FORMAT_VERSION_NUMBER: byte := 0
  const INVALID_IMAGE_DATA: string := "Invalid image data"

  /**
   * An `ImageBuffer<Rgba<u8>, Vec<u8>>`: row-major pixels of four bytes
   * (red, green, blue, alpha), pixel (i, j) at byte `(j * width + i) * 4`.
   */
  datatype Image = Image(width: u32, height: u32, raw: seq<byte>) {
    /** The buffer holds exactly the image's pixels. */
    predicate Valid() {
      |raw| == ByteCount(width, height)
    }
  }

  datatype Sprite = Sprite(inner: Image)

  datatype SpriteSheet = SpriteSheet(image: Image, meta: SpriteSheetMetaData)

  /** `a * b` by repeated addition, which keeps the solver's arithmetic linear. */
  function Product(a: nat, b: nat): nat
  {
    if a == 0 then 0 else Product(a - 1, b) + b
  }

  /** `width * height * 4`: the bytes of a width×height image, `height` rows of `width` pixels. */
  function ByteCount(width: nat, height: nat): nat
  {
    4 * Product(height, width)
  }

  /** `ImageBuffer::from_raw`: an image when the buffer holds exactly its pixels. */
  function FromRaw(width: u32, height: u32, buf: seq<byte>): (img: Option<Image>)
    ensures img.Some? <==> |buf| == ByteCount(width, height)
    ensures img.Some? ==> img.value.Valid() && img.value.raw == buf
    ensures img.Some? ==> img.value.width == width && img.value.height == height
  {
    if |buf| == ByteCount(width, height) then Some(Image(width, height, buf)) else None
  }

  // ---------------------------------------------------------------- pixels and crops

  function PixelOffset(width: nat, i: nat, j: nat): nat {
    4 * (Product(j, width) + i)
  }

  /** The four bytes of pixel (i, j). */
  function Pixel(img: Image, i: nat, j: nat): (p: seq<byte>)
    requires img.Valid() && i < img.width && j < img.height
    ensures |p| == 4
  {
    PixelBound(img.width, img.height, i, j, 1);
    img.raw[PixelOffset(img.width, i, j)..PixelOffset(img.width, i, j) + 4]
  }

  /** The rect lies inside the image, as `view` demands. */
  predicate Within(rect: Rect, img: Image) {
    rect.x + rect.w <= img.width && rect.y + rect.h <= img.height
  }

  /** Row `j` of the crop: `w` pixels of the sheet's row `y + j`, from column `x` on. */
  function CropRow(img: Image, rect: Rect, j: nat): (row: seq<byte>)
    requires img.Valid() && Within(rect, img) && j < rect.h
    ensures |row| == 4 * rect.w
  {
    var start := PixelOffset(img.width, rect.x, rect.y + j);
    if rect.w == 0 then []
    else
      PixelBound(img.width, img.height, rect.x, rect.y + j, rect.w);
      img.raw[start..start + 4 * rect.w]
  }

  /** The crop's rows, top to bottom. */
  function CropRows(img: Image, rect: Rect): (rows: seq<seq<byte>>)
    requires img.Valid() && Within(rect, img)
    ensures |rows| == rect.h && forall j | 0 <= j < rect.h :: rows[j] == CropRow(img, rect, j)
  {
    seq(rect.h, j requires 0 <= j < rect.h => CropRow(img, rect, j))
  }

  /** Rows laid end to end. */
  function Flatten(rows: seq<seq<byte>>): seq<byte>
  {
    if rows == [] then [] else rows[0] + Flatten(rows[1..])
  }

  /** `view(x, y, w, h).to_image()`: a fresh w×h image copied out of the sheet row by row. */
  function Crop(img: Image, rect: Rect): (sprite: Image)
    requires img.Valid() && Within(rect, img)
    ensures sprite.Valid() && sprite.width == rect.w && sprite.height == rect.h
  {
    FlattenLength(CropRows(img, rect), rect.w);
    Image(rect.w, rect.h, Flatten(CropRows(img, rect)))
  }

  /**
   * `get_sprite`: `None` for a name the table does not hold, otherwise the
   * crop of the sheet to that name's rect.
   */
  function GetSprite(sheet: SpriteSheet, name: Utf8String): (sprite: Option<Sprite>)
    requires sheet.image.Valid()
    requires name in sheet.meta.mapping ==> Within(sheet.meta.mapping[name], sheet.image)
    ensures sprite.Some? <==> name in sheet.meta.mapping
    ensures sprite.Some? ==>
              var rect := sheet.meta.mapping[name];
              sprite.value.inner.Valid() && sprite.value.inner.width == rect.w && sprite.value.inner.height == rect.h
  {
    if name !in sheet.meta.mapping then None
    else Some(Sprite(Crop(sheet.image, sheet.meta.mapping[name])))
  }

  // ---------------------------------------------------------------- the image codec

  /** `image_raw_to_writer`'s output: version byte, width, height, the raw buffer. */
  function EncodeImage(img: Image): (e: seq<byte>)
    ensures |e| == 9 + |img.raw| && e[0] == FORMAT_VERSION_NUMBER
    ensures e[1..5] == U32ToLe(img.width) && e[5..9] == U32ToLe(img.height)
    ensures e[9..] == img.raw
  {
    var e := [FORMAT_VERSION_NUMBER] + U32ToLe(img.width) + U32ToLe(img.height) + img.raw;
    assert e[1..5] == U32ToLe(img.width);
    assert e[5..9] == U32ToLe(img.height);
    assert e[9..] == img.raw;
    e
  }

  /** The version check and the two dimension reads: width, height and the unread rest. */
  function DecodeImageHeader(s: seq<byte>): (r: Result<(u32, u32, seq<byte>)>)
  {
    if |s| < 1 then Err(UnexpectedEof)
    else if s[0] != FORMAT_VERSION_NUMBER then Err(InvalidData(UNSUPPORTED_VERSION))
    else
      var width :- ReadU32(s[1..]);
      var height :- ReadU32(width.1);
      Ok((width.0, height.0, height.1))
  }

  /** The pixel read: exactly `size` bytes, handed to `from_raw`. */
  function ReadPixels(width: u32, height: u32, size: nat, s: seq<byte>): (r: Result<(Image, seq<byte>)>)
  {
    if |s| < size then Err(UnexpectedEof)
    else
      match FromRaw(width, height, s[..size])
      case None => Err(InvalidData(INVALID_IMAGE_DATA))
      case Some(img) => Ok((img, s[size..]))
  }

  /**
   * `image_raw_from_reader` as written: the byte count `width * height * 4`
   * is a `u32` product, which wraps once it reaches 2^32. It therefore never
   * loads an image of 2^32 or more pixel bytes.
   */
  function DecodeImageAsWritten(s: seq<byte>): (r: Result<(Image, seq<byte>)>)
    ensures r.Ok? ==> r.value.0.Valid() && ByteCount(r.value.0.width, r.value.0.height) < U32_LIMIT
  {
    var h :- DecodeImageHeader(s);
    ReadPixels(h.0, h.1, TruncateU32(ByteCount(h.0, h.1)), h.2)
  }

  /**
   * `image_raw_from_reader` with the byte count computed without wrapping:
   * the image and the unread rest, a suffix of `s`.
   */
  function DecodeImage(s: seq<byte>): (r: Result<(Image, seq<byte>)>)
    ensures r.Ok? ==> r.value.0.Valid() && |r.value.1| <= |s| - 9 && r.value.1 == s[|s| - |r.value.1|..]
  {
    var h :- DecodeImageHeader(s);
    ReadPixels(h.0, h.1, ByteCount(h.0, h.1), h.2)
  }

  // ---------------------------------------------------------------- the container

  /** `save_raw`'s output: the image section immediately followed by the mapping section. */
  function EncodeSheet(sheet: SpriteSheet, order: seq<Utf8String>): (e: seq<byte>)
    requires IsOrdering(order, sheet.meta.mapping)
    ensures sheet.image.Valid() ==> DecodeImage(e) == Ok((sheet.image, Encode(sheet.meta, order)))
  {
    var mapping := Encode(sheet.meta, order);
    if sheet.image.Valid() then
      ImageRoundTrip(sheet.image, mapping);
      EncodeImage(sheet.image) + mapping
    else
      EncodeImage(sheet.image) + mapping
  }

  /** `load_raw` on the file contents `s`: the image, then the mapping from what follows it. */
  function DecodeSheet(s: seq<byte>): (r: Result<(SpriteSheet, seq<byte>)>)
    ensures r.Ok? ==> r.value.0.image.Valid() && |r.value.1| <= |s| - 14 && r.value.1 == s[|s| - |r.value.1|..]
  {
    match DecodeImage(s)
    case Err(e) => Err(e)
    case Ok(image) =>
      match Decode(image.1)
      case Err(e) => Err(e)
      case Ok(meta) => Ok((SpriteSheet(image.0, meta.0), meta.1))
  }

  // ---------------------------------------------------------------- the source's methods

  /** `image_raw_to_writer`: the header, then the raw buffer. */
  method ImageRawToWriter(img: Image, w: Writer)
    modifies w
    ensures w.data == old(w.data) + EncodeImage(img)
  {
    w.Write([FORMAT_VERSION_NUMBER]);
    w.Write(U32ToLe(img.width));
    w.Write(U32ToLe(img.height));
    w.Write(img.raw);
  }

  /**
   * `image_raw_from_reader`: checks the version byte, reads width and height,
   * then exactly the image's pixel bytes. A wrong version byte stops it after
   * that byte, before the dimensions are read.
   */
  method ImageRawFromReader(r: Reader) returns (res: Result<Image>)
    requires r.Valid()
    modifies r`pos
    ensures r.Valid()
    ensures res.Ok? <==> DecodeImage(old(r.Rest())).Ok?
    ensures res.Ok? ==> DecodeImage(old(r.Rest())).value == (res.value, r.Rest())
    ensures res.Err? ==> res.error == DecodeImage(old(r.Rest())).error
    ensures |old(r.Rest())| > 0 && old(r.Rest())[0] != FORMAT_VERSION_NUMBER ==>
              r.Rest() == old(r.Rest())[1..]
  {
    var buf :- r.ReadExact(1);
    if buf[0] != FORMAT_VERSION_NUMBER {
      return Err(InvalidData(UNSUPPORTED_VERSION));
    }
    buf :- r.ReadExact(4);
    var width := LeToU32(buf);
    buf :- r.ReadExact(4);
    var height := LeToU32(buf);
    var pixels :- r.ReadExact(ByteCount(width, height));
    match FromRaw(width, height, pixels)
    case None =>
      return Err(InvalidData(INVALID_IMAGE_DATA));
    case Some(image) =>
      return Ok(image);
  }

  /** `save_raw`, with the created file standing as the writer: image section, then mapping section. */
  method SaveRaw(sheet: SpriteSheet, w: Writer) returns (ghost order: seq<Utf8String>)
    modifies w
    ensures IsOrdering(order, sheet.meta.mapping)
    ensures w.data == old(w.data) + EncodeSheet(sheet, order)
  {
    ImageRawToWriter(sheet.image, w);
    order := ToWriter(sheet.meta, w);
    Associative(old(w.data), EncodeImage(sheet.image), Encode(sheet.meta, order));
  }

  /**
   * `load_raw`, with the opened file standing as the reader: the image, then
   * the mapping from the same reader; the first error is returned as is.
   */
  method LoadRaw(r: Reader) returns (res: Result<SpriteSheet>)
    requires r.Valid()
    modifies r`pos
    ensures r.Valid()
    ensures res.Ok? <==> DecodeSheet(old(r.Rest())).Ok?
    ensures res.Ok? ==> DecodeSheet(old(r.Rest())).value == (res.value, r.Rest())
    ensures res.Err? ==> res.error == DecodeSheet(old(r.Rest())).error
  {
    var image :- ImageRawFromReader(r);
    var meta :- FromReader(r);
    return Ok(SpriteSheet(image, meta));
  }

  // ---------------------------------------------------------------- arithmetic helpers

  lemma {:induction false} ProductIsMul(a: nat, b: nat)
    ensures Product(a, b) == a * b
  {
    if a > 0 {
      ProductIsMul(a - 1, b);
    }
  }

  /** `ByteCount` is the source's `width * height * 4`, computed without wrapping. */
  lemma ByteCountIsProduct(width: nat, height: nat)
    ensures ByteCount(width, height) == width * height * 4
  {
    ProductIsMul(height, width);
  }

  lemma {:induction false} ProductMono(a: nat, b: nat, w: nat)
    requires a <= b
    ensures Product(a, w) <= Product(b, w)
  {
    if a < b {
      ProductMono(a, b - 1, w);
    }
  }

  /** `n` pixels from (i, j) on stay inside row `j`, and so inside the buffer. */
  lemma PixelBound(width: nat, height: nat, i: nat, j: nat, n: nat)
    requires i + n <= width && j < height
    ensures PixelOffset(width, i, j) + 4 * n <= ByteCount(width, height)
  {
    ProductMono(j + 1, height, width);
  }

  // ---------------------------------------------------------------- properties


  /** With the version byte right and nine bytes present, the header is bytes 1-4 and 5-8. */
  lemma ImageHeader(s: seq<byte>)
    requires |s| >= 9 && s[0] == FORMAT_VERSION_NUMBER
    ensures DecodeImageHeader(s) == Ok((LeToU32(s[1..5]), LeToU32(s[5..9]), s[9..]))
  {
    assert s[1..][..4] == s[1..5];
    assert s[1..][4..][..4] == s[5..9];
    assert s[1..][4..][4..] == s[9..];
  }

  /** Round trip: the image read back from its encoding has the same dimensions and raw bytes. */
  lemma ImageRoundTrip(img: Image, rest: seq<byte>)
    requires img.Valid()
    ensures DecodeImage(EncodeImage(img) + rest) == Ok((img, rest))
  {
    var s := EncodeImage(img) + rest;
    ImageSections(EncodeImage(img), rest);
    ImageHeader(s);
    assert s[9..] == img.raw + rest;
    assert (img.raw + rest)[..|img.raw|] == img.raw;
  }

  lemma ImageSections(e: seq<byte>, rest: seq<byte>)
    requires |e| >= 9
    ensures (e + rest)[1..5] == e[1..5] && (e + rest)[5..9] == e[5..9] && (e + rest)[9..] == e[9..] + rest
  {
  }

  /** Version gate: any first byte but 0 fails with "Unsupported file version". */
  lemma ImageVersionGate(s: seq<byte>)
    requires |s| > 0 && s[0] != FORMAT_VERSION_NUMBER
    ensures DecodeImage(s) == Err(InvalidData(UNSUPPORTED_VERSION))
    ensures DecodeSheet(s) == Err(InvalidData(UNSUPPORTED_VERSION))
  {
  }

  /** Fewer pixel bytes than the header announces fail with a short read. */
  lemma PixelsShort(s: seq<byte>)
    requires |s| >= 9 && s[0] == FORMAT_VERSION_NUMBER
    requires |s| - 9 < ByteCount(LeToU32(s[1..5]), LeToU32(s[5..9]))
    ensures DecodeImage(s) == Err(UnexpectedEof)
  {
    ImageHeader(s);
  }

  /** Truncation: a strict prefix of an image encoding fails with a short read. */
  lemma ImageTruncation(img: Image, k: nat)
    requires img.Valid() && k < |EncodeImage(img)|
    ensures DecodeImage(EncodeImage(img)[..k]) == Err(UnexpectedEof)
  {
    var e := EncodeImage(img);
    var s := e[..k];
    if k >= 9 {
      assert s[1..5] == e[1..5] && s[5..9] == e[5..9];
      LeToU32Inverse(U32ToLe(img.width));
      PixelsShort(s);
    } else if k >= 5 {
      assert |s[1..][4..]| < 4;
    }
  }

  /**
   * `from_raw` always gets exactly width·height·4 bytes, so "Invalid image data"
   * never comes out: the only failures are a short read and a wrong version.
   */
  lemma FromRawNeverFails(s: seq<byte>)
    ensures DecodeImage(s).Err? ==>
              DecodeImage(s).error == UnexpectedEof || DecodeImage(s).error == InvalidData(UNSUPPORTED_VERSION)
  {
  }

  /** While the byte count stays below 2^32 the wrapping product changes nothing. */
  lemma AsWrittenAgrees(s: seq<byte>)
    requires DecodeImageHeader(s).Ok? ==>
               ByteCount(DecodeImageHeader(s).value.0, DecodeImageHeader(s).value.1) < U32_LIMIT
    ensures DecodeImageAsWritten(s) == DecodeImage(s)
  {
  }

  /**
   * A 65536×16384 image has 2^32 pixel bytes: the wrapping product asks for
   * none of them, `from_raw` rejects the empty buffer, and the image that the
   * corrected decoder reads back is lost.
   */
  lemma AsWrittenLosesLargeImage(img: Image, rest: seq<byte>)
    requires img.Valid() && img.width == 65536 && img.height == 16384
    ensures DecodeImage(EncodeImage(img) + rest) == Ok((img, rest))
    ensures DecodeImageAsWritten(EncodeImage(img) + rest) == Err(InvalidData(INVALID_IMAGE_DATA))
  {
    var s := EncodeImage(img) + rest;
    ImageRoundTrip(img, rest);
    ImageSections(EncodeImage(img), rest);
    ImageHeader(s);
    ByteCountIsProduct(img.width, img.height);
    assert TruncateU32(ByteCount(img.width, img.height)) == 0;
  }

  /** The mapping section is decoded from exactly the bytes after the image section. */
  lemma SheetSections(img: Image, rest: seq<byte>)
    requires img.Valid()
    ensures DecodeSheet(EncodeImage(img) + rest).Ok? <==> Decode(rest).Ok?
    ensures Decode(rest).Ok? ==>
              DecodeSheet(EncodeImage(img) + rest).value == (SpriteSheet(img, Decode(rest).value.0), Decode(rest).value.1)
    ensures Decode(rest).Err? ==> DecodeSheet(EncodeImage(img) + rest).error == Decode(rest).error
  {
    ImageRoundTrip(img, rest);
  }

  /** Round trip of the single-file form: `load_raw` after `save_raw` gives the same sheet. */
  lemma SheetRoundTrip(sheet: SpriteSheet, order: seq<Utf8String>, rest: seq<byte>)
    requires sheet.image.Valid() && IsOrdering(order, sheet.meta.mapping) && Fits(sheet.meta)
    ensures DecodeSheet(EncodeSheet(sheet, order) + rest) == Ok((sheet, rest))
  {
    var m := Encode(sheet.meta, order);
    Associative(EncodeImage(sheet.image), m, rest);
    SheetSections(sheet.image, m + rest);
    RoundTrip(sheet.meta, order, rest);
  }

  lemma {:induction false} FlattenLength(rows: seq<seq<byte>>, w: nat)
    requires forall j | 0 <= j < |rows| :: |rows[j]| == 4 * w
    ensures |Flatten(rows)| == 4 * Product(|rows|, w)
  {
    if rows != [] {
      FlattenLength(rows[1..], w);
    }
  }

  /** Byte `t` of row `j` sits `j` whole rows into the flattened rows. */
  lemma {:induction false} FlattenIndex(rows: seq<seq<byte>>, w: nat, j: nat, t: nat)
    requires forall j | 0 <= j < |rows| :: |rows[j]| == 4 * w
    requires j < |rows| && t < 4 * w
    ensures 4 * Product(j, w) + t < |Flatten(rows)| && Flatten(rows)[4 * Product(j, w) + t] == rows[j][t]
  {
    FlattenLength(rows[1..], w);
    if j > 0 {
      FlattenIndex(rows[1..], w, j - 1, t);
    }
  }

  lemma PixelByte(img: Image, i: nat, j: nat, d: nat, k: nat)
    requires img.Valid() && i < img.width && j < img.height && d < 4
    requires k == PixelOffset(img.width, i, j) + d
    ensures k < |img.raw| && Pixel(img, i, j)[d] == img.raw[k]
  {
    PixelBound(img.width, img.height, i, j, 1);
  }

  lemma RowByte(img: Image, rect: Rect, j: nat, t: nat)
    requires img.Valid() && Within(rect, img) && j < rect.h && t < 4 * rect.w
    ensures PixelOffset(img.width, rect.x, rect.y + j) + t < |img.raw|
    ensures CropRow(img, rect, j)[t] == img.raw[PixelOffset(img.width, rect.x, rect.y + j) + t]
  {
    PixelBound(img.width, img.height, rect.x, rect.y + j, rect.w);
  }

  lemma CropByte(img: Image, rect: Rect, j: nat, t: nat)
    requires img.Valid() && Within(rect, img) && j < rect.h && t < 4 * rect.w
    ensures 4 * Product(j, rect.w) + t < |Crop(img, rect).raw|
    ensures PixelOffset(img.width, rect.x, rect.y + j) + t < |img.raw|
    ensures Crop(img, rect).raw[4 * Product(j, rect.w) + t] == img.raw[PixelOffset(img.width, rect.x, rect.y + j) + t]
  {
    FlattenIndex(CropRows(img, rect), rect.w, j, t);
    RowByte(img, rect, j, t);
  }

  /** An image whose bytes are the crop's bytes has the crop's pixels. */
  lemma PixelFromRow(c: Image, img: Image, rect: Rect, i: nat, j: nat, d: nat)
    requires c.Valid() && c.width == rect.w && c.height == rect.h
    requires img.Valid() && Within(rect, img) && i < rect.w && j < rect.h && d < 4
    requires 4 * Product(j, rect.w) + 4 * i + d < |c.raw|
    requires PixelOffset(img.width, rect.x, rect.y + j) + 4 * i + d < |img.raw|
    requires c.raw[4 * Product(j, rect.w) + 4 * i + d] == img.raw[PixelOffset(img.width, rect.x, rect.y + j) + 4 * i + d]
    ensures Pixel(c, i, j)[d] == Pixel(img, rect.x + i, rect.y + j)[d]
  {
    PixelByte(c, i, j, d, 4 * Product(j, rect.w) + 4 * i + d);
    PixelByte(img, rect.x + i, rect.y + j, d, PixelOffset(img.width, rect.x, rect.y + j) + 4 * i + d);
  }

  lemma CropPixelByte(img: Image, rect: Rect, i: nat, j: nat, d: nat)
    requires img.Valid() && Within(rect, img) && i < rect.w && j < rect.h && d < 4
    ensures Pixel(Crop(img, rect), i, j)[d] == Pixel(img, rect.x + i, rect.y + j)[d]
  {
    CropByte(img, rect, j, 4 * i + d);
    PixelFromRow(Crop(img, rect), img, rect, i, j, d);
  }

  /** Each pixel of a crop is the sheet pixel offset by the rect's corner. */
  lemma CropPixel(img: Image, rect: Rect, i: nat, j: nat)
    requires img.Valid() && Within(rect, img) && i < rect.w && j < rect.h
    ensures Pixel(Crop(img, rect), i, j) == Pixel(img, rect.x + i, rect.y + j)
  {
    forall d | 0 <= d < 4
      ensures Pixel(Crop(img, rect), i, j)[d] == Pixel(img, rect.x + i, rect.y + j)[d]
    {
      CropPixelByte(img, rect, i, j, d);
    }
  }

  /**
   * `get_sprite` of a present name gives a w×h image whose pixel (i, j) is
   * the sheet's pixel (x + i, y + j).
   */
  lemma SpritePixels(sheet: SpriteSheet, name: Utf8String, i: nat, j: nat)
    requires sheet.image.Valid() && name in sheet.meta.mapping
    requires Within(sheet.meta.mapping[name], sheet.image)
    requires i < sheet.meta.mapping[name].w && j < sheet.meta.mapping[name].h
    ensures var rect := sheet.meta.mapping[name];
      Pixel(GetSprite(sheet, name).value.inner, i, j) == Pixel(sheet.image, rect.x + i, rect.y + j)
  {
    CropPixel(sheet.image, sheet.meta.mapping[name], i, j);
  }
}
