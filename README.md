# Sprite-sheet container format, modelled in Dafny

This project models the binary codec of the `sprite_sheet` Rust crate. A sprite
sheet is an RGBA-8 image together with a metadata table that maps each sprite name
to the `Rect` (x, y, w, h) it occupies in the image. The single-file form stores
two sections one after the other:

- the **image section**: version byte 0, width and height as little-endian `u32`,
  then exactly width·height·4 raw pixel bytes;
- the **mapping section**: version byte 0, the entry count as a little-endian
  `u32`, then for each entry the key's byte length (`u32` LE), the key's UTF-8
  bytes, and x, y, w, h as four little-endian `u32` values.

Modules:

- `Results` (`results.dfy`) holds `Result`/`Option` and the two error kinds the
  codecs produce: `UnexpectedEof` and `InvalidData(message)`.
- `Bytes` (`bytes.dfy`) holds `byte`/`u32`, the `as u32` truncation and the
  little-endian `u32` encoding with its inverse.
- `Utf8` (`utf8.dfy`) holds UTF-8 well-formedness as `String::from_utf8` checks it,
  following Table 3-7 of the Unicode Standard.
- `Streams` (`streams.dfy`) holds a `Writer` class, the sink that `write` appends
  to, and a `Reader` class, a source with a read position that `read_exact` advances.
- `Mapping` (`mapping.dfy`) models `src/mapping.rs`.
  - The functions `Encode`, `DecodeEntry`, `DecodeEntries` and `Decode` define the format.
  - The methods `ToWriter`, `FromReader`, `ReadEntries`, `ReadEntry`, `ToBytes` and
    `FromBytes` follow the source's writes, reads and loop, and are proved against
    those functions.
- `Sheet` (`sheet.dfy`) models `src/lib.rs`.
  - The image codec: `EncodeImage`/`DecodeImage`, with the methods
    `ImageRawToWriter`/`ImageRawFromReader`.
  - The single-stream container: `EncodeSheet`/`DecodeSheet`, with `SaveRaw`/`LoadRaw`.
  - The crop behind `get_sprite`.
- `Scenario` (`scenario.dfy`) states and proves what those methods give for the repository's own 2×2 fixture.

The `HashMap` iteration order is not fixed, so `ToWriter` hands back the order it
chose as a ghost value. Every encoding property is stated for every possible order,
and the round trip is stated as equality of the tables. The writer is the `Vec<u8>`
of `to_bytes` or the created file of `save_raw`. The reader is the `Cursor` of
`from_bytes` or the opened file of `load_raw`.

## Model

| member | source | states |
|---|---|---|
| Bytes.TruncateU32 | src/mapping.rs:80 | `n as u32` keeps `n` exactly when it is below 2^32 and is never larger |
| Bytes.U32ToLe | src/mapping.rs:80 | `to_le_bytes` gives four bytes that `from_le_bytes` turns back into the same value |
| Bytes.LeToU32 | src/mapping.rs:117 | `from_le_bytes` puts the first byte lowest and the fourth highest |
| Bytes.LeToU32Inverse | src/mapping.rs:117 | every four bytes are the encoding of the value read from them, so the encoding is a bijection |
| Bytes.ReadU32 | src/mapping.rs:115-117 | a 4-byte `read_exact` succeeds exactly when four bytes remain, and otherwise fails with a short read |
| Bytes.ReadU32Encoded | src/mapping.rs:115-117 | reading a `u32` from its own encoding gives the value and leaves the following bytes untouched |
| Utf8.ValidUtf8 | src/mapping.rs:128-131 | the bytes `String::from_utf8` accepts; such bytes never contain C0, C1 or F5–FF |
| Utf8.AsciiIsValid | src/mapping.rs:130 | every ASCII key passes the UTF-8 check |
| Utf8.BadLeadIsInvalid | src/mapping.rs:130 | a key that starts with a continuation byte or with C0, C1 or F5–FF is rejected |
| Streams.Writer.Write | src/mapping.rs:79 | a write appends exactly the given bytes |
| Streams.Reader.ReadExact | src/mapping.rs:105 | `read_exact(n)` returns the next `n` bytes and advances by `n`; with fewer left it fails with `UnexpectedEof` |
| Mapping.Empty | src/mapping.rs:150-152 | `empty()` holds no name and its `len()` is 0 |
| Mapping.SpriteSheetMetaData.Len | src/mapping.rs:154-156 | `len()` is the number of names in the table, and it is 0 exactly for the empty table |
| Mapping.EncodeRect | src/mapping.rs:89-94 | a rect is 16 bytes, x, y, w, h in that order, and decodes back to itself |
| Mapping.DecodeRect | src/mapping.rs:134-141 | any 16 bytes are the encoding of the rect read from them |
| Mapping.EncodeEntry | src/mapping.rs:85-94 | an entry is the key length as `u32` LE, the key bytes, then the rect, 20 + len(key) bytes in all |
| Mapping.Encode | src/mapping.rs:77-99 | the output of `to_writer` starts with byte 0, then, when every count fits, the number of entries as a little-endian `u32` |
| Mapping.Decode | src/mapping.rs:102-148 | a successful `from_reader` saw version 0 and a count, holds at most that many names, and leaves the bytes after the last entry unread |
| Mapping.DecodeEntry | src/mapping.rs:122-141 | a successful entry read leaves a proper suffix of the input unread |
| Mapping.DecodeEntries | src/mapping.rs:120-145 | the loop only adds names, gives at most `count` new names, and leaves a suffix of the input unread |
| Mapping.ToWriter | src/mapping.rs:77-99 | appends the version byte, the count and every entry once, in the order the map hands out its keys |
| Mapping.FromReader | src/mapping.rs:102-148 | succeeds exactly when the input decodes, returns that table and stops just after the last entry, or fails with the decoder's error; a wrong version byte consumes only that byte |
| Mapping.ReadEntries | src/mapping.rs:120-147 | the `for` loop reads and inserts exactly `count` entries, and the first failing entry ends it with that entry's error |
| Mapping.ReadEntry | src/mapping.rs:122-141 | one turn of the loop reads the key length, the key, the UTF-8 check and the rect, each exactly as the entry decoder does |
| Mapping.ToBytes | src/mapping.rs:64-68 | the collected bytes are the encoding, and whenever every count fits in a `u32` they decode back to the same table with nothing left over |
| Mapping.FromBytes | src/mapping.rs:71-74 | decoding from a byte vector gives what the table decoder gives, with any trailing bytes ignored |
| Mapping.EmptyEncoding | src/mapping.rs:150-156 | the empty table encodes to exactly `[0, 0, 0, 0, 0]`, and those five bytes decode to the empty table |
| Mapping.OrderingLength | src/mapping.rs:80-83 | the order the loop visits has as many names as the table, so the count written matches the entries written |
| Mapping.EntryRoundTrip | src/mapping.rs:122-141 | an entry read back from its own encoding gives the same key and rect and leaves what follows unread |
| Mapping.EntriesRoundTrip | src/mapping.rs:121-145 | reading the encoded entries inserts them one by one, in the order they were written |
| Mapping.InsertAllContents | src/mapping.rs:144 | after the insertions a name maps to its last inserted rect, or keeps its earlier one if it was never inserted |
| Mapping.InsertOrdering | src/mapping.rs:144 | inserting every entry of a table once, in any order, rebuilds that table |
| Mapping.RoundTrip | src/mapping.rs:64-74 | decoding an encoding, whatever the visiting order, gives back the same name-to-rect table and leaves the following bytes unread |
| Mapping.VersionGate | src/mapping.rs:108-113 | any first byte other than 0 fails with `InvalidData("Unsupported file version")` |
| Mapping.Utf8Guard | src/mapping.rs:130-131 | key bytes that are not UTF-8 fail with `InvalidData("Invalid UTF-8 string")` |
| Mapping.EntryErrorStops | src/mapping.rs:121-131 | the first entry that fails ends decoding with its error, and no later entry is processed |
| Mapping.ListRoundTrip | src/mapping.rs:120-145 | decoding any list of entries written one after another, repeated keys included, inserts them into the table one by one in the written order and leaves what follows unread |
| Mapping.InsertListKeeps | src/mapping.rs:144 | a name that no entry of the list carries keeps the rect it had before, and stays absent if it was absent |
| Mapping.LastInsertWins | src/mapping.rs:144 | after inserting a list, a key maps to the rect of its last entry in the list |
| Mapping.DuplicateKeepsLast | src/mapping.rs:120-145 | when a key occurs several times anywhere in the entry list, with any entries between or after its occurrences, the decoded table keeps the rect of its last occurrence |
| Mapping.EntryPrefixFails | src/mapping.rs:122-135 | an entry cut short anywhere fails with a short read |
| Mapping.EntriesPrefixFails | src/mapping.rs:121-145 | entries cut short anywhere fail with a short read |
| Mapping.TruncationFails | src/mapping.rs:105-135 | every strict prefix of an encoding fails with a short read: the version, count, key length, key or rect is incomplete |
| Mapping.ShortKeyFails | src/mapping.rs:123-130 | a key with fewer bytes than its declared length fails with a short read whatever its bytes, since `read_exact` runs before the UTF-8 check |
| Mapping.TruncatedEntryFails | src/mapping.rs:122-141 | any input one entry read accepts, cut anywhere inside that entry, fails with a short read |
| Mapping.TruncatedEntriesFail | src/mapping.rs:120-145 | any input the entry loop accepts, cut anywhere before the end of its last entry, fails with a short read, repeated keys included |
| Mapping.TruncatedInputFails | src/mapping.rs:102-148 | any input `from_reader` accepts, not only an encoding of a table, fails with a short read when cut anywhere before the end of its last entry |
| Sheet.FromRaw | src/lib.rs:77-78 | `from_raw` gives an image exactly when the buffer holds width·height·4 bytes, and that image has the given width, height and bytes |
| Sheet.Crop | src/lib.rs:149 | the crop is a well-formed image of w×h pixels |
| Sheet.GetSprite | src/lib.rs:146-151 | `None` exactly when the name is absent, otherwise a well-formed w×h image |
| Sheet.EncodeImage | src/lib.rs:33-46 | the image section is byte 0, width LE, height LE, then the raw bytes, 9 + len(raw) bytes in all |
| Sheet.DecodeImageAsWritten | src/lib.rs:49-81 | with the wrapping `u32` byte count as written, a decoded image is well formed and has fewer than 2^32 pixel bytes, so no larger image ever loads |
| Sheet.EncodeSheet | src/lib.rs:95-105 | the output of `save_raw` decodes as its image followed by exactly the mapping section |
| Sheet.DecodeSheet | src/lib.rs:84-92 | a loaded sheet's image is well formed and the bytes after the mapping section stay unread |
| Sheet.DecodeImage | src/lib.rs:49-81 | a decoded image always holds exactly width·height·4 bytes, and what follows the image stays unread |
| Sheet.ImageRawToWriter | src/lib.rs:33-46 | appends byte 0, the width, the height, then the raw bytes |
| Sheet.ImageRawFromReader | src/lib.rs:49-81 | succeeds exactly when the input decodes as an image, returns it and stops right after its pixels, or fails with the decoder's error; a wrong version byte consumes only that byte |
| Sheet.SaveRaw | src/lib.rs:95-105 | the file receives the image section immediately followed by the mapping section |
| Sheet.LoadRaw | src/lib.rs:84-92 | reads the image, then the mapping from the same stream; the first error is returned and no partial sheet is produced |
| Sheet.ByteCountIsProduct | src/lib.rs:74 | the byte count the model reads is the source's `width * height * 4`, computed without wrapping |
| Sheet.ImageHeader | src/lib.rs:52-71 | with the version byte right, width and height are read from bytes 1–4 and 5–8 |
| Sheet.ImageRoundTrip | src/lib.rs:33-81 | an image read back from its own encoding has the same dimensions and raw bytes, and what follows it stays unread |
| Sheet.ImageVersionGate | src/lib.rs:52-61 | a first byte other than 0 fails with `InvalidData("Unsupported file version")`, for the image section and for the whole file |
| Sheet.PixelsShort | src/lib.rs:73-75 | with the exact count of `DecodeImage`, fewer pixel bytes after the 9-byte header than width·height·4 fail with a short read |
| Sheet.ImageTruncation | src/lib.rs:52-75 | with the exact count of `DecodeImage`, every strict prefix of an image encoding fails with a short read |
| Sheet.FromRawNeverFails | src/lib.rs:74-78 | after the exact read the "Invalid image data" branch is unreachable; decoding only fails with a short read or a wrong version |
| Sheet.AsWrittenAgrees | src/lib.rs:74 | while width·height·4 stays below 2^32, the wrapping `u32` product decodes exactly as the exact one does |
| Sheet.AsWrittenLosesLargeImage | src/lib.rs:74-78 | a 65536×16384 image decodes with the exact count, but with the `u32` product as written it fails with "Invalid image data" |
| Sheet.SheetSections | src/lib.rs:88-89 | the mapping is decoded from exactly the bytes after the image section, and its error is passed on |
| Sheet.SheetRoundTrip | src/lib.rs:84-105 | `load_raw` after `save_raw` gives back the same image and the same table |
| Sheet.CropPixel | src/lib.rs:149 | pixel (i, j) of the crop is pixel (x + i, y + j) of the sheet |
| Sheet.SpritePixels | src/lib.rs:146-151 | for a present name, pixel (i, j) of the sprite is the sheet's pixel (x + i, y + j) |
| Scenario.SampleImage | tests/test.rs:10-21 | the 2×2 fixture is a well-formed image |
| Scenario.SamplePixels | tests/test.rs:15-16 | pixel (0, 0) of the fixture is red and pixel (1, 0) green |
| Scenario.SampleMetaFits | tests/test.rs:24-45 | the fixture table has two entries and every count fits in a `u32` |
| Scenario.ImageRoundTripCase | tests/test.rs:48-62 | the fixture image written and read back has dimensions 2×2 and the same raw bytes |
| Scenario.SaveLoadCase | tests/test.rs:65-81 | `save_raw` then `load_raw` of the fixture gives back the same sheet, with a table of two entries |
| Scenario.GetSpriteCase | tests/test.rs:106-120 | "sprite1" is a 1×1 red image and "sprite2" a 1×1 green one |
| Scenario.VersionMismatchCase | tests/test.rs:123-142 | an image section whose first byte is 99 fails with `InvalidData("Unsupported file version")` |

## Left out

- File handling is not modelled: `File::open`/`File::create`, `BufReader`/`BufWriter` and `flush` in `load_raw`/`save_raw`. The `Reader` stands for the opened file and the `Writer` for the created one.
- Write errors are not modelled. Every `write` takes its bytes whole and never fails, as for the `Vec<u8>` of `to_bytes`. Through `save_raw`'s `BufWriter` a failed or partial `write` is possible, and the source ignores the count `write` returns; neither is modelled.
- `SpriteSheetMetaData::save_raw`/`load_raw` in `src/mapping.rs` are not modelled: they only wrap `to_writer`/`from_reader` around a file.
- The JSON form (`save_json`/`load_json`) and the two-file `save`/`load`/`new_from_path` are not modelled. They delegate to serde_json and to the image crate's PNG/JPEG codecs, which are not part of this model.
- The debug `println!` of the pixel buffer is not modelled, because it is a side effect only.
- The `HashMap` iteration order is not modelled beyond "some order that visits every key once", because it depends on the hasher.
- Mapping.ToWriter: a key longer than 2^32 − 1 bytes, or a table with 2^32 or more entries, is written with its length cut by `as u32`, as the source does. The round trip (Mapping.RoundTrip, Mapping.ToBytes, Sheet.SheetRoundTrip) is proved only when every count fits in a `u32`.
- Sheet.GetSprite: requires the rect to lie inside the image. The image crate's `view` panics otherwise, and that panic is not modelled.
- Sheet.FromRaw: the image crate is not part of this model. `from_raw` is modelled as accepting exactly width·height·4 bytes, which covers every buffer the decoder can hand it. The crate's acceptance of longer buffers, and images built from them, are not modelled: an image here always holds exactly its pixels.
- Sheet.DecodeImage: the corrected decoder computes the byte count exactly and has no size limit. An allocation too large for the platform is not modelled.
- Sheet.DecodeSheet, Sheet.ImageRawFromReader, Sheet.LoadRaw: follow the corrected pixel count of `Sheet.DecodeImage`, not the wrapping `u32` product of src/lib.rs:74. The source's count is `Sheet.DecodeImageAsWritten`, which agrees with them whenever width·height·4 < 2^32 (`Sheet.AsWrittenAgrees`); for larger images the source fails with "Invalid image data" where they succeed.
- Sheet.DecodeImageAsWritten: follows release builds, where the `u32` product wraps. Debug builds panic on the overflow instead, and that panic is not modelled.
- Only the `Rgba<u8>` pixel type is modelled, because it is the only one the crate uses.

## Findings

| source | as written | input that shows it | evidently intended | confidence | as-written member | corrected member |
|---|---|---|---|---|---|---|
| src/lib.rs:74 | The pixel byte count `width * height * 4` is a `u32` product. It wraps in release builds and panics in debug builds. | A 65536×16384 image has 2^32 pixel bytes. The product wraps to 0, `from_raw` receives an empty buffer, and the file written by `image_raw_to_writer` fails to load with "Invalid image data". | The count is computed without overflow, so every image that is written can be read back. The code also has no explicit size-overflow check before allocating. | not executed | Sheet.AsWrittenLosesLargeImage | Sheet.ImageRoundTrip |
