/**
 * The repository's own fixture: a 2×2 sheet of red, green, blue and yellow
 * pixels with "sprite1" on the red pixel and "sprite2" on the green one,
 * and what the codecs and the crop are proved to give for it.
 */
module Scenario {
  import opened Results
  import opened Bytes
  import opened Utf8
  import opened Streams
  import opened Mapping
  import opened Sheet

  const RED: seq<byte> := [255, 0, 0, 255]
  const GREEN: seq<byte> := [0, 255, 0, 255]
  const BLUE: seq<byte> := [0, 0, 255, 255]
  const YELLOW: seq<byte> := [255, 255, 0, 255]

  /** "sprite1" and "sprite2" as UTF-8 bytes. */
  const SPRITE1: Utf8String := [115, 112, 114, 105, 116, 101, 49]
  const SPRITE2: Utf8String := [115, 112, 114, 105, 116, 101, 50]

  function SampleImage(): (img: Image)
    ensures img.Valid()
  {
    Image(2, 2, RED + GREEN + BLUE + YELLOW)
  }

  /** A two-entry table, as two `insert`s into `empty()` build it. */
  function Pair(first: Utf8String, r1: Rect, second: Utf8String, r2: Rect): Table
  {
    Empty().mapping[first := r1][second := r2]
  }

  function SampleMeta(): SpriteSheetMetaData
  {
    SpriteSheetMetaData(Pair(SPRITE1, Rect(0, 0, 1, 1), SPRITE2, Rect(1, 0, 1, 1)))
  }

  /** The two names differ, so the table has two entries, and every count fits in a u32. */
  lemma SampleMetaFits()
    ensures Fits(SampleMeta()) && SampleMeta().Len() == 2
  {
    assert SPRITE1[6] != SPRITE2[6];
    PairFits(SPRITE1, Rect(0, 0, 1, 1), SPRITE2, Rect(1, 0, 1, 1));
  }

  lemma PairFits(first: Utf8String, r1: Rect, second: Utf8String, r2: Rect)
    requires first != second && |first| < U32_LIMIT && |second| < U32_LIMIT
    ensures var meta := SpriteSheetMetaData(Pair(first, r1, second, r2)); Fits(meta) && meta.Len() == 2
  {
  }

  /** Pixel (0, 0) of the sample is red and pixel (1, 0) green. */
  lemma SamplePixels()
    ensures Pixel(SampleImage(), 0, 0) == RED && Pixel(SampleImage(), 1, 0) == GREEN
  {
    var raw := SampleImage().raw;
    assert PixelOffset(2, 0, 0) == 0 && PixelOffset(2, 1, 0) == 4;
    assert raw[0..4] == RED && raw[4..8] == GREEN;
  }

  /** The image written to a byte vector and read back has the same dimensions and bytes. */
  method ImageRoundTripCase() returns (res: Result<Image>)
    ensures res.Ok? && res.value.width == 2 && res.value.height == 2
    ensures res.Ok? && res.value.raw == RED + GREEN + BLUE + YELLOW
  {
    var w := new Writer();
    ImageRawToWriter(SampleImage(), w);
    var r := new Reader(w.data);
    ImageRoundTrip(SampleImage(), []);
    assert w.data == EncodeImage(SampleImage()) + [];
    res := ImageRawFromReader(r);
  }

  /** `save_raw` then `load_raw` gives back the image and both table entries. */
  method SaveLoadCase() returns (res: Result<SpriteSheet>)
    ensures res == Ok(SpriteSheet(SampleImage(), SampleMeta()))
    ensures res.Ok? && res.value.meta.Len() == 2
  {
    var sheet := SpriteSheet(SampleImage(), SampleMeta());
    SampleMetaFits();
    var w := new Writer();
    ghost var order := SaveRaw(sheet, w);
    var r := new Reader(w.data);
    SheetRoundTrip(sheet, order, []);
    assert w.data == EncodeSheet(sheet, order) + [];
    res := LoadRaw(r);
  }

  /** "sprite1" is the red pixel and "sprite2" the green one, each 1×1. */
  method GetSpriteCase() returns (first: Option<Sprite>, second: Option<Sprite>)
    ensures first.Some? && first.value.inner.Valid() && first.value.inner.width == 1 && first.value.inner.height == 1
    ensures first.Some? && first.value.inner.Valid() && Pixel(first.value.inner, 0, 0) == RED
    ensures second.Some? && second.value.inner.Valid() && second.value.inner.width == 1 && second.value.inner.height == 1
    ensures second.Some? && second.value.inner.Valid() && Pixel(second.value.inner, 0, 0) == GREEN
  {
    var sheet := SpriteSheet(SampleImage(), SampleMeta());
    first := GetSprite(sheet, SPRITE1);
    second := GetSprite(sheet, SPRITE2);
    SpritePixels(sheet, SPRITE1, 0, 0);
    SpritePixels(sheet, SPRITE2, 0, 0);
    SamplePixels();
  }

  /** An image section whose first byte is 99 fails with "Unsupported file version". */
  method VersionMismatchCase() returns (res: Result<Image>)
    ensures res == Err(InvalidData("Unsupported file version"))
  {
    var img := SampleImage();
    var w := new Writer();
    w.Write([99]);
    w.Write(U32ToLe(img.width));
    w.Write(U32ToLe(img.height));
    w.Write(img.raw);
    var r := new Reader(w.data);
    ImageVersionGate(w.data);
    res := ImageRawFromReader(r);
  }
}
