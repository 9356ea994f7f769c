/**
 * The sprite-sheet metadata: a table from sprite name to `Rect`, and its binary
 * codec. Layout: version byte 0, entry count (u32 LE), then per entry the key's
 * byte length (u32 LE), the key's UTF-8 bytes, and x, y, w, h (four u32 LE).
 */
module Mapping {
  import opened Results
  import opened Bytes
  import opened Utf8
  import opened Streams

  const MAPPING_VERSION_NUMBER: byte := 0
  const UNSUPPORTED_VERSION: string := "Unsupported file version"
  const INVALID_UTF8: string := "Invalid UTF-8 string"

  /** The area of one sprite within the sheet image. */
  datatype Rect = Rect(x: u32, y: u32, w: u32, h: u32)

  /** The `HashMap<String, Rect>`: one rect per name, in no particular order. */
  type Table = map<Utf8String, Rect>

  datatype SpriteSheetMetaData = SpriteSheetMetaData(mapping: Table) {
    /** `len()`: the number of distinct names; zero exactly for the empty table. */
    function Len(): (n: nat)
      ensures n == |mapping.Keys|
      ensures n == 0 <==> mapping == map[]
    {
      |mapping|
    }
  }

  function Empty(): (meta: SpriteSheetMetaData)
    ensures meta.Len() == 0
    ensures forall name :: name !in meta.mapping
  {
    SpriteSheetMetaData(map[])
  }

  /** The counts the encoder writes as `u32` survive its `as u32` casts. */
  predicate Fits(meta: SpriteSheetMetaData) {
    |meta.mapping| < U32_LIMIT && forall name | name in meta.mapping :: |name| < U32_LIMIT
  }

  // ---------------------------------------------------------------- encoding

  predicate Distinct<T(==)>(s: seq<T>) {
    forall i, j | 0 <= i < j < |s| :: s[i] != s[j]
  }

  /** `order` lists every key of `m` exactly once: one possible `HashMap` iteration order. */
  predicate IsOrdering(order: seq<Utf8String>, m: Table) {
    && Distinct(order)
    && (forall name | name in order :: name in m)
    && (forall name | name in m :: name in order)
  }

  /** x, y, w, h as four little-endian u32 values. */
  function EncodeRect(r: Rect): (b: seq<byte>)
    ensures |b| == 16 && DecodeRect(b) == r
  {
    var b := U32ToLe(r.x) + U32ToLe(r.y) + U32ToLe(r.w) + U32ToLe(r.h);
    assert b[0..4] == U32ToLe(r.x) && b[4..8] == U32ToLe(r.y);
    assert b[8..12] == U32ToLe(r.w) && b[12..16] == U32ToLe(r.h);
    b
  }

  /** Every 16 bytes are the encoding of the rect read from them. */
  function DecodeRect(b: seq<byte>): (r: Rect)
    requires |b| == 16
    ensures U32ToLe(r.x) + U32ToLe(r.y) + U32ToLe(r.w) + U32ToLe(r.h) == b
  {
    LeToU32Inverse(b[0..4]);
    LeToU32Inverse(b[4..8]);
    LeToU32Inverse(b[8..12]);
    LeToU32Inverse(b[12..16]);
    assert b == b[0..4] + b[4..8] + b[8..12] + b[12..16];
    Rect(LeToU32(b[0..4]), LeToU32(b[4..8]), LeToU32(b[8..12]), LeToU32(b[12..16]))
  }

  /**
   * One entry: the key length cast to u32, the key bytes, the rect;
   * 20 + |name| bytes in all.
   */
  function EncodeEntry(name: Utf8String, r: Rect): (e: seq<byte>)
    ensures |e| == 20 + |name|
    ensures |name| < U32_LIMIT ==> LeToU32(e[..4]) == |name|
    ensures e[4..4 + |name|] == name && DecodeRect(e[4 + |name|..]) == r
  {
    var e := U32ToLe(TruncateU32(|name|)) + name + EncodeRect(r);
    assert e[..4] == U32ToLe(TruncateU32(|name|));
    assert e[4..4 + |name|] == name;
    assert e[4 + |name|..] == EncodeRect(r);
    e
  }

  /** The entries of `m` in the order `order` visits them. */
  function EncodeEntries(order: seq<Utf8String>, m: Table): seq<byte>
    requires forall name | name in order :: name in m
  {
    if order == [] then []
    else EncodeEntry(order[0], m[order[0]]) + EncodeEntries(order[1..], m)
  }

  /** `to_writer`'s output when the map iterates in the order `order`. */
  function Encode(meta: SpriteSheetMetaData, order: seq<Utf8String>): (e: seq<byte>)
    requires IsOrdering(order, meta.mapping)
    ensures |e| >= 5 && e[0] == MAPPING_VERSION_NUMBER
    ensures Fits(meta) ==> LeToU32(e[1..5]) == meta.Len()
  {
    var e := [MAPPING_VERSION_NUMBER] + U32ToLe(TruncateU32(|meta.mapping|)) + EncodeEntries(order, meta.mapping);
    assert e[1..5] == U32ToLe(TruncateU32(|meta.mapping|));
    e
  }

  // ---------------------------------------------------------------- decoding

  /**
   * One entry read from the front of `s`: the key, its rect and the unread rest.
   * The key's length is read first, then the key, which must be UTF-8, then the rect.
   */
  function DecodeEntry(s: seq<byte>): (r: Result<(Utf8String, Rect, seq<byte>)>)
    ensures r.Ok? ==> |r.value.2| < |s| && r.value.2 == s[|s| - |r.value.2|..]
  {
    var len :- ReadU32(s);
    var rest := len.1;
    if |rest| < len.0 then Err(UnexpectedEof)
    else
      var key := rest[..len.0];
      var after := rest[len.0..];
      if !ValidUtf8(key) then Err(InvalidData(INVALID_UTF8))
      else if |after| < 16 then Err(UnexpectedEof)
      else Ok((key, DecodeRect(after[..16]), after[16..]))
  }

  /**
   * `n` entries read in turn and inserted into `acc`, a later entry replacing
   * an earlier one with the same key; the first failure ends the decoding.
   */
  function DecodeEntries(s: seq<byte>, n: nat, acc: Table): (r: Result<(Table, seq<byte>)>)
    decreases n
    ensures r.Ok? ==> acc.Keys <= r.value.0.Keys && |r.value.0| <= |acc| + n
    ensures r.Ok? ==> |r.value.1| <= |s| && r.value.1 == s[|s| - |r.value.1|..]
  {
    if n == 0 then Ok((acc, s))
    else
      var e :- DecodeEntry(s);
      DecodeEntries(e.2, n - 1, acc[e.0 := e.1])
  }

  /** The decoded entries wrapped as metadata; an error passes through. */
  function AsMetaData(r: Result<(Table, seq<byte>)>): Result<(SpriteSheetMetaData, seq<byte>)>
  {
    match r
    case Ok(t) => Ok((SpriteSheetMetaData(t.0), t.1))
    case Err(e) => Err(e)
  }

  /**
   * `from_reader` on the input `s`: the table and the bytes after its last entry.
   * It holds at most as many names as the count in the header announces.
   */
  function Decode(s: seq<byte>): (r: Result<(SpriteSheetMetaData, seq<byte>)>)
    ensures r.Ok? ==> |s| >= 5 && s[0] == MAPPING_VERSION_NUMBER && r.value.0.Len() <= LeToU32(s[1..5])
    ensures r.Ok? ==> |r.value.1| <= |s| - 5 && r.value.1 == s[|s| - |r.value.1|..]
  {
    if |s| < 1 then Err(UnexpectedEof)
    else if s[0] != MAPPING_VERSION_NUMBER then Err(InvalidData(UNSUPPORTED_VERSION))
    else
      var count :- ReadU32(s[1..]);
      assert s[1..][..4] == s[1..5];
      AsMetaData(DecodeEntries(count.1, count.0, map[]))
  }

  // ---------------------------------------------------------------- the source's methods

  /**
   * `to_writer`: the header, then every entry in the order the map hands out
   * its keys. That order is not fixed, so it comes back as `order`.
   */
  method ToWriter(meta: SpriteSheetMetaData, w: Writer) returns (ghost order: seq<Utf8String>)
    modifies w
    ensures IsOrdering(order, meta.mapping)
    ensures w.data == old(w.data) + Encode(meta, order)
  {
    w.Write([MAPPING_VERSION_NUMBER]);
    w.Write(U32ToLe(TruncateU32(|meta.mapping|)));
    ghost var header := w.data;
    var remaining := meta.mapping.Keys;
    order := [];
    while remaining != {}
      invariant remaining <= meta.mapping.Keys
      invariant Distinct(order)
      invariant forall name :: name in order <==> name in meta.mapping && name !in remaining
      invariant w.data == header + EncodeEntries(order, meta.mapping)
      decreases remaining
    {
      var name :| name in remaining;
      ghost var before := w.data;
      w.Write(U32ToLe(TruncateU32(|name|)));
      w.Write(name);
      w.Write(EncodeRect(meta.mapping[name]));
      ghost var previous := order;
      ghost var unvisited := remaining;
      order := order + [name];
      remaining := remaining - {name};
      OrderGrows(meta.mapping, previous, unvisited, name, order, remaining);
      EntryWritten(header, previous, name, meta.mapping, before, w.data, order);
    }
    ghost var h := U32ToLe(TruncateU32(|meta.mapping|));
    Associative(old(w.data), [MAPPING_VERSION_NUMBER], h);
    Associative(old(w.data), [MAPPING_VERSION_NUMBER] + h, EncodeEntries(order, meta.mapping));
  }

  /**
   * `from_reader`: checks the version byte, reads the entry count, then reads
   * and inserts exactly that many entries. On success the reader stands just
   * after the last entry; a wrong version byte stops it after that byte.
   */
  method FromReader(r: Reader) returns (res: Result<SpriteSheetMetaData>)
    requires r.Valid()
    modifies r`pos
    ensures r.Valid()
    ensures res.Ok? <==> Decode(old(r.Rest())).Ok?
    ensures res.Ok? ==> Decode(old(r.Rest())).value == (res.value, r.Rest())
    ensures res.Err? ==> res.error == Decode(old(r.Rest())).error
    ensures |old(r.Rest())| > 0 && old(r.Rest())[0] != MAPPING_VERSION_NUMBER ==>
              r.Rest() == old(r.Rest())[1..]
  {
    ghost var input := r.Rest();
    var buf :- r.ReadExact(1);
    if buf[0] != MAPPING_VERSION_NUMBER {
      return Err(InvalidData(UNSUPPORTED_VERSION));
    }
    buf :- r.ReadExact(4);
    var entryCount := LeToU32(buf);
    DecodeHeader(input);
    var mapping :- ReadEntries(r, entryCount);
    return Ok(SpriteSheetMetaData(mapping));
  }

  /** `from_reader`'s loop: `count` entries read in turn, each inserted into the table. */
  method ReadEntries(r: Reader, count: u32) returns (res: Result<Table>)
    requires r.Valid()
    modifies r`pos
    ensures r.Valid()
    ensures res.Ok? <==> DecodeEntries(old(r.Rest()), count, map[]).Ok?
    ensures res.Ok? ==> DecodeEntries(old(r.Rest()), count, map[]).value == (res.value, r.Rest())
    ensures res.Err? ==> res.error == DecodeEntries(old(r.Rest()), count, map[]).error
  {
    var mapping: Table := map[];
    var remaining: nat := count;
    ghost var goal := DecodeEntries(r.Rest(), remaining, mapping);
    while remaining > 0
      invariant r.Valid()
      invariant goal == DecodeEntries(r.Rest(), remaining, mapping)
    {
      ghost var before := r.Rest();
      var next := ReadEntry(r);
      match next
      case Err(e) =>
        EntryFails(goal, before, remaining, mapping);
        return Err(e);
      case Ok(entry) =>
        ghost var previous := mapping;
        ghost var n := remaining;
        mapping := mapping[entry.0 := entry.1];
        remaining := remaining - 1;
        EntryTaken(goal, before, remaining, previous, entry.0, entry.1, r.Rest());
    }
    return Ok(mapping);
  }

  /**
   * One turn of `from_reader`'s loop: the key length, the key, which must be
   * UTF-8, then the four rect fields; the first short read or bad key stops it.
   */
  method ReadEntry(r: Reader) returns (res: Result<(Utf8String, Rect)>)
    requires r.Valid()
    modifies r`pos
    ensures r.Valid()
    ensures res.Ok? ==> DecodeEntry(old(r.Rest())) == Ok((res.value.0, res.value.1, r.Rest()))
    ensures res.Err? ==> DecodeEntry(old(r.Rest())) == Err(res.error)
  {
    var lenBuf :- r.ReadExact(4);
    var stringLength := LeToU32(lenBuf);
    var keyBuf :- r.ReadExact(stringLength);
    if !ValidUtf8(keyBuf) {
      return Err(InvalidData(INVALID_UTF8));
    }
    var key: Utf8String := keyBuf;
    var rectBuf :- r.ReadExact(16);
    return Ok((key, DecodeRect(rectBuf)));
  }

  /** `to_bytes`: the encoding collected in a fresh byte vector. */
  method ToBytes(meta: SpriteSheetMetaData) returns (bytes: seq<byte>, ghost order: seq<Utf8String>)
    ensures IsOrdering(order, meta.mapping)
    ensures bytes == Encode(meta, order)
    ensures Fits(meta) ==> Decode(bytes) == Ok((meta, []))
  {
    var w := new Writer();
    order := ToWriter(meta, w);
    bytes := w.data;
    if Fits(meta) {
      RoundTrip(meta, order, []);
      assert bytes + [] == bytes;
    }
  }

  /** `from_bytes`: decoding from a cursor over `bytes`; trailing bytes are ignored. */
  method FromBytes(bytes: seq<byte>) returns (res: Result<SpriteSheetMetaData>)
    ensures res == DropRest(Decode(bytes))
  {
    var r := new Reader(bytes);
    res := FromReader(r);
  }

  // ---------------------------------------------------------------- properties

  lemma {:induction false} EncodeEntriesSnoc(order: seq<Utf8String>, name: Utf8String, m: Table)
    requires forall k | k in order :: k in m
    requires name in m
    ensures EncodeEntries(order + [name], m) == EncodeEntries(order, m) + EncodeEntry(name, m[name])
  {
    if order == [] {
      assert order + [name] == [name];
    } else {
      assert (order + [name])[1..] == order[1..] + [name];
      EncodeEntriesSnoc(order[1..], name, m);
    }
  }

  /** The three writes of one loop turn of `ToWriter` append exactly the next entry. */
  lemma EntryWritten(header: seq<byte>, order: seq<Utf8String>, name: Utf8String, m: Table,
                     before: seq<byte>, after: seq<byte>, order': seq<Utf8String>)
    requires forall k | k in order :: k in m
    requires name in m && order' == order + [name]
    requires before == header + EncodeEntries(order, m)
    requires after == before + U32ToLe(TruncateU32(|name|)) + name + EncodeRect(m[name])
    ensures forall k | k in order' :: k in m
    ensures after == header + EncodeEntries(order', m)
  {
    EncodeEntriesSnoc(order, name, m);
    Associative(before, U32ToLe(TruncateU32(|name|)), name);
    Associative(before, U32ToLe(TruncateU32(|name|)) + name, EncodeRect(m[name]));
    Associative(header, EncodeEntries(order, m), EncodeEntry(name, m[name]));
  }

  /** Visiting one more unvisited key keeps the visited keys distinct and the two sets complementary. */
  lemma OrderGrows(m: Table, order: seq<Utf8String>, remaining: set<Utf8String>, name: Utf8String,
                   order': seq<Utf8String>, remaining': set<Utf8String>)
    requires Distinct(order) && remaining <= m.Keys
    requires forall k :: k in order <==> k in m && k !in remaining
    requires name in remaining && order' == order + [name] && remaining' == remaining - {name}
    ensures Distinct(order') && remaining' <= m.Keys
    ensures forall k :: k in order' <==> k in m && k !in remaining'
  {
  }

  /** The header as `FromReader` reads it: one version byte, then four count bytes. */
  lemma DecodeHeader(s: seq<byte>)
    requires |s| >= 5 && s[0] == MAPPING_VERSION_NUMBER
    ensures Decode(s) == AsMetaData(DecodeEntries(s[1..][4..], LeToU32(s[1..][..4]), map[]))
  {
  }

  /** With entries left to read, an entry that fails to decode ends the decoding with its error. */
  lemma EntryFails(goal: Result<(Table, seq<byte>)>, s: seq<byte>, n: nat, acc: Table)
    requires n > 0 && goal == DecodeEntries(s, n, acc)
    requires DecodeEntry(s).Err?
    ensures goal == Err(DecodeEntry(s).error)
  {
  }

  /** With entries left to read, a decoded entry is inserted and decoding goes on after it. */
  lemma EntryTaken(goal: Result<(Table, seq<byte>)>, s: seq<byte>, n: nat, acc: Table,
                   key: Utf8String, rect: Rect, after: seq<byte>)
    requires goal == DecodeEntries(s, n + 1, acc)
    requires DecodeEntry(s) == Ok((key, rect, after))
    ensures goal == DecodeEntries(after, n, acc[key := rect])
  {
  }

  lemma {:induction false} DistinctSize<T>(s: seq<T>)
    requires Distinct(s)
    ensures |set x | x in s| == |s|
  {
    if s != [] {
      DistinctSize(s[1..]);
      assert (set x | x in s) == {s[0]} + (set x | x in s[1..]);
    }
  }

  /** An ordering visits every entry once, so it is as long as the table. */
  lemma OrderingLength(order: seq<Utf8String>, m: Table)
    requires IsOrdering(order, m)
    ensures |order| == |m|
  {
    DistinctSize(order);
    assert (set x | x in order) == m.Keys;
  }



  /** `empty()` has no entries and encodes to exactly five zero bytes, which decode back to it. */
  lemma EmptyEncoding()
    ensures IsOrdering([], Empty().mapping)
    ensures Encode(Empty(), []) == [0, 0, 0, 0, 0]
    ensures Decode([0, 0, 0, 0, 0]) == Ok((Empty(), []))
  {
    assert U32ToLe(0) == [0, 0, 0, 0];
    ReadU32Encoded(0, []);
    assert U32ToLe(0) + [] == [0, 0, 0, 0];
  }

  lemma EntryRoundTrip(name: Utf8String, r: Rect, rest: seq<byte>)
    requires |name| < U32_LIMIT
    ensures DecodeEntry(EncodeEntry(name, r) + rest) == Ok((name, r, rest))
  {
    var tail := name + EncodeRect(r) + rest;
    ReadU32Encoded(|name|, tail);
    assert EncodeEntry(name, r) + rest == U32ToLe(|name|) + tail;
    assert tail[..|name|] == name;
    assert tail[|name|..][..16] == EncodeRect(r);
    assert tail[|name|..][16..] == rest;
  }

  /** `acc` after inserting, in turn, the entry of `m` for each name of `order`. */
  function InsertAll(acc: Table, order: seq<Utf8String>, m: Table): Table
    requires forall name | name in order :: name in m
    decreases order
  {
    if order == [] then acc else InsertAll(acc[order[0] := m[order[0]]], order[1..], m)
  }

  lemma {:induction false} InsertAllContents(acc: Table, order: seq<Utf8String>, m: Table, name: Utf8String)
    requires forall k | k in order :: k in m
    decreases order
    ensures name in InsertAll(acc, order, m) <==> name in acc || name in order
    ensures name in order ==> InsertAll(acc, order, m)[name] == m[name]
    ensures name !in order && name in acc ==> InsertAll(acc, order, m)[name] == acc[name]
  {
    if order != [] {
      InsertAllContents(acc[order[0] := m[order[0]]], order[1..], m, name);
      assert name in order <==> name == order[0] || name in order[1..];
    }
  }

  /** One step of the decoding loop: the first entry is inserted, then the remaining ones are read. */
  lemma DecodeEntriesStep(s: seq<byte>, n: nat, acc: Table)
    requires n > 0 && DecodeEntry(s).Ok?
    ensures var e := DecodeEntry(s).value;
            DecodeEntries(s, n, acc) == DecodeEntries(e.2, n - 1, acc[e.0 := e.1])
  {
  }

  /** After a well-formed entry, decoding goes on with one entry fewer and that entry inserted. */
  lemma DecodeAfterEntry(name: Utf8String, r: Rect, later: seq<byte>, n: nat, acc: Table)
    requires |name| < U32_LIMIT && n > 0
    ensures DecodeEntries(EncodeEntry(name, r) + later, n, acc) == DecodeEntries(later, n - 1, acc[name := r])
  {
    EntryRoundTrip(name, r, later);
    DecodeEntriesStep(EncodeEntry(name, r) + later, n, acc);
  }

  lemma EncodeEntriesCons(order: seq<Utf8String>, m: Table, rest: seq<byte>)
    requires forall name | name in order :: name in m
    requires order != []
    ensures EncodeEntries(order, m) + rest == EncodeEntry(order[0], m[order[0]]) + (EncodeEntries(order[1..], m) + rest)
  {
  }

  /** The inductive step of `EntriesRoundTrip`, stated over the encoded bytes `s` alone. */
  lemma EntriesRoundTripStep(order: seq<Utf8String>, m: Table, acc: Table, s: seq<byte>, later: seq<byte>, rest: seq<byte>)
    requires forall name | name in order :: name in m && |name| < U32_LIMIT
    requires order != []
    requires s == EncodeEntry(order[0], m[order[0]]) + later
    requires DecodeEntries(later, |order| - 1, acc[order[0] := m[order[0]]])
          == Ok((InsertAll(acc[order[0] := m[order[0]]], order[1..], m), rest))
    ensures DecodeEntries(s, |order|, acc) == Ok((InsertAll(acc, order, m), rest))
  {
    EntryRoundTrip(order[0], m[order[0]], later);
    DecodeEntriesStep(s, |order|, acc);
  }

  lemma {:induction false} EntriesRoundTrip(order: seq<Utf8String>, m: Table, acc: Table, rest: seq<byte>)
    requires forall name | name in order :: name in m && |name| < U32_LIMIT
    ensures DecodeEntries(EncodeEntries(order, m) + rest, |order|, acc) == Ok((InsertAll(acc, order, m), rest))
  {
    if order != [] {
      EncodeEntriesCons(order, m, rest);
      EntriesRoundTrip(order[1..], m, acc[order[0] := m[order[0]]], rest);
      EntriesRoundTripStep(order, m, acc, EncodeEntries(order, m) + rest, EncodeEntries(order[1..], m) + rest, rest);
    }
  }

  /** Visiting every key of `m` once and inserting its entry rebuilds `m`. */
  lemma InsertOrdering(order: seq<Utf8String>, m: Table)
    requires IsOrdering(order, m)
    ensures InsertAll(map[], order, m) == m
  {
    var t := InsertAll(map[], order, m);
    forall name
      ensures name in t <==> name in m
      ensures name in t ==> t[name] == m[name]
    {
      InsertAllContents(map[], order, m, name);
    }
  }

  /** Where the header and the entries sit in an encoding followed by `rest`. */
  lemma EncodeLayout(meta: SpriteSheetMetaData, order: seq<Utf8String>, rest: seq<byte>)
    requires IsOrdering(order, meta.mapping)
    ensures var s := Encode(meta, order) + rest;
      && |s| >= 5 && s[0] == MAPPING_VERSION_NUMBER
      && s[1..][..4] == U32ToLe(TruncateU32(|meta.mapping|))
      && s[1..][4..] == EncodeEntries(order, meta.mapping) + rest
  {
    var h := U32ToLe(TruncateU32(|meta.mapping|));
    var e := EncodeEntries(order, meta.mapping);
    var s := Encode(meta, order) + rest;
    assert s == [MAPPING_VERSION_NUMBER] + (h + (e + rest));
  }

  /**
   * Round trip: decoding an encoding, in whatever order the map was visited,
   * gives back the same set of (name, Rect) pairs and leaves what follows unread.
   */
  lemma RoundTrip(meta: SpriteSheetMetaData, order: seq<Utf8String>, rest: seq<byte>)
    requires IsOrdering(order, meta.mapping)
    requires Fits(meta)
    ensures Decode(Encode(meta, order) + rest) == Ok((meta, rest))
  {
    var m := meta.mapping;
    OrderingLength(order, m);
    var s := Encode(meta, order) + rest;
    EncodeLayout(meta, order, rest);
    DecodeHeader(s);
    EntriesRoundTrip(order, m, map[], rest);
    InsertOrdering(order, m);
  }

  /** Version gate: any first byte but 0 fails with "Unsupported file version". */
  lemma VersionGate(s: seq<byte>)
    requires |s| > 0 && s[0] != MAPPING_VERSION_NUMBER
    ensures Decode(s) == Err(InvalidData(UNSUPPORTED_VERSION))
  {
  }

  /** UTF-8 guard: an entry whose key bytes are not UTF-8 fails with "Invalid UTF-8 string". */
  lemma Utf8Guard(key: seq<byte>, rest: seq<byte>)
    requires |key| < U32_LIMIT && !ValidUtf8(key)
    ensures DecodeEntry(U32ToLe(|key|) + (key + rest)) == Err(InvalidData(INVALID_UTF8))
  {
    ReadU32Encoded(|key|, key + rest);
    assert (key + rest)[..|key|] == key;
  }

  /** The first entry that fails ends decoding with its error: no later entry is looked at. */
  lemma EntryErrorStops(s: seq<byte>, n: nat, acc: Table)
    requires n > 0 && DecodeEntry(s).Err?
    ensures DecodeEntries(s, n, acc) == Err(DecodeEntry(s).error)
  {
  }



  lemma Associative(a: seq<byte>, b: seq<byte>, c: seq<byte>)
    ensures a + b + c == a + (b + c)
  {
  }

  /** A strict prefix of an encoding is cut either inside the header or inside the entries. */
  lemma PrefixHeader(e: seq<byte>, body: seq<byte>, k: nat)
    requires |e| >= 5 && e[0] == MAPPING_VERSION_NUMBER && e[1..][4..] == body && k < |e|
    ensures k < 5 ==> Decode(e[..k]) == Err(UnexpectedEof)
    ensures k >= 5 ==> Decode(e[..k]) == AsMetaData(DecodeEntries(body[..k - 5], LeToU32(e[1..][..4]), map[]))
  {
    var s := e[..k];
    if k >= 5 {
      assert s[1..][..4] == e[1..][..4];
      assert s[1..][4..] == body[..k - 5];
      DecodeHeader(s);
    }
  }

  lemma PrefixOfConcat(a: seq<byte>, b: seq<byte>, k: nat)
    requires k <= |a| + |b|
    ensures k <= |a| ==> (a + b)[..k] == a[..k]
    ensures k >= |a| ==> (a + b)[..k] == a + b[..k - |a|]
  {
  }

  lemma EntryPrefixFails(name: Utf8String, r: Rect, k: nat)
    requires |name| < U32_LIMIT && k < |EncodeEntry(name, r)|
    ensures DecodeEntry(EncodeEntry(name, r)[..k]) == Err(UnexpectedEof)
  {
    var s := EncodeEntry(name, r)[..k];
    if k >= 4 {
      assert s[..4] == U32ToLe(|name|);
      LeToU32Inverse(s[..4]);
      assert ReadU32(s).value.0 == |name|;
      if k >= 4 + |name| {
        assert s[4..][..|name|] == name;
      }
    }
  }

  lemma {:induction false} EntriesPrefixFails(order: seq<Utf8String>, m: Table, acc: Table, k: nat)
    requires forall name | name in order :: name in m && |name| < U32_LIMIT
    requires k < |EncodeEntries(order, m)|
    ensures DecodeEntries(EncodeEntries(order, m)[..k], |order|, acc) == Err(UnexpectedEof)
  {
    var name := order[0];
    var first := EncodeEntry(name, m[name]);
    var later := EncodeEntries(order[1..], m);
    EncodeEntriesCons(order, m, []);
    assert first + (later + []) == first + later;
    PrefixOfConcat(first, later, k);
    if k < |first| {
      EntryPrefixFails(name, m[name], k);
      EntryErrorStops(first[..k], |order|, acc);
    } else {
      DecodeAfterEntry(name, m[name], later[..k - |first|], |order|, acc);
      EntriesPrefixFails(order[1..], m, acc[name := m[name]], k - |first|);
    }
  }

  /** Truncation: input that ends before the last declared field is complete fails with a short read. */
  lemma TruncationFails(meta: SpriteSheetMetaData, order: seq<Utf8String>, k: nat)
    requires IsOrdering(order, meta.mapping) && Fits(meta)
    requires k < |Encode(meta, order)|
    ensures Decode(Encode(meta, order)[..k]) == Err(UnexpectedEof)
  {
    var m := meta.mapping;
    var e := Encode(meta, order);
    EncodeLayout(meta, order, []);
    assert e + [] == e && EncodeEntries(order, m) + [] == EncodeEntries(order, m);
    PrefixHeader(e, EncodeEntries(order, m), k);
    if k >= 5 {
      OrderingLength(order, m);
      EntriesPrefixFails(order, m, map[], k - 5);
    }
  }

  // ---------------------------------------------------------------- entries as a list

  /**
   * Entries as they appear on the wire, one (key, rect) pair after another;
   * unlike a table, a list may repeat a key.
   */
  function EncodeList(entries: seq<(Utf8String, Rect)>): seq<byte>
  {
    if entries == [] then [] else EncodeEntry(entries[0].0, entries[0].1) + EncodeList(entries[1..])
  }

  /** `acc` after inserting the entries of the list in turn, a later key replacing an earlier one. */
  function InsertList(acc: Table, entries: seq<(Utf8String, Rect)>): Table
    decreases entries
  {
    if entries == [] then acc else InsertList(acc[entries[0].0 := entries[0].1], entries[1..])
  }

  /** Decoding any list of entries, repeated keys included, inserts them one by one in the order written. */
  lemma {:induction false} ListRoundTrip(entries: seq<(Utf8String, Rect)>, acc: Table, rest: seq<byte>)
    requires forall j | 0 <= j < |entries| :: |entries[j].0| < U32_LIMIT
    ensures DecodeEntries(EncodeList(entries) + rest, |entries|, acc) == Ok((InsertList(acc, entries), rest))
  {
    if entries != [] {
      var later := EncodeList(entries[1..]) + rest;
      Associative(EncodeEntry(entries[0].0, entries[0].1), EncodeList(entries[1..]), rest);
      ListRoundTrip(entries[1..], acc[entries[0].0 := entries[0].1], rest);
      DecodeAfterEntry(entries[0].0, entries[0].1, later, |entries|, acc);
    }
  }

  /** A name that no entry of the list carries keeps what `acc` gave it. */
  lemma {:induction false} InsertListKeeps(acc: Table, entries: seq<(Utf8String, Rect)>, name: Utf8String)
    requires forall j | 0 <= j < |entries| :: entries[j].0 != name
    decreases entries
    ensures name in InsertList(acc, entries) <==> name in acc
    ensures name in acc ==> InsertList(acc, entries)[name] == acc[name]
  {
    if entries != [] {
      InsertListKeeps(acc[entries[0].0 := entries[0].1], entries[1..], name);
    }
  }

  /** The entry at `i` is the last one with its key, so the key ends up with its rect. */
  lemma {:induction false} LastInsertWins(acc: Table, entries: seq<(Utf8String, Rect)>, i: nat)
    requires i < |entries|
    requires forall j | i < j < |entries| :: entries[j].0 != entries[i].0
    decreases i
    ensures entries[i].0 in InsertList(acc, entries)
    ensures InsertList(acc, entries)[entries[i].0] == entries[i].1
  {
    var next := acc[entries[0].0 := entries[0].1];
    if i == 0 {
      InsertListKeeps(next, entries[1..], entries[0].0);
    } else {
      LastInsertWins(next, entries[1..], i - 1);
    }
  }

  /**
   * A duplicate key keeps the rect of its last entry, wherever the entries
   * with that key sit in the list and whatever comes between or after them.
   */
  lemma DuplicateKeepsLast(entries: seq<(Utf8String, Rect)>, i: nat, acc: Table, rest: seq<byte>)
    requires forall j | 0 <= j < |entries| :: |entries[j].0| < U32_LIMIT
    requires i < |entries|
    requires forall j | i < j < |entries| :: entries[j].0 != entries[i].0
    ensures var r := DecodeEntries(EncodeList(entries) + rest, |entries|, acc);
      r.Ok? && entries[i].0 in r.value.0 && r.value.0[entries[i].0] == entries[i].1
  {
    ListRoundTrip(entries, acc, rest);
    LastInsertWins(acc, entries, i);
  }

  // ---------------------------------------------------------------- truncation of any input

  /** A key shorter than its declared length fails with a short read, whether or not its bytes are UTF-8. */
  lemma ShortKeyFails(len: u32, key: seq<byte>)
    requires |key| < len
    ensures DecodeEntry(U32ToLe(len) + key) == Err(UnexpectedEof)
  {
    ReadU32Encoded(len, key);
  }

  /** Every input that one entry read consumes fails with a short read when cut inside that entry. */
  lemma TruncatedEntryFails(s: seq<byte>, k: nat)
    requires DecodeEntry(s).Ok? && k < |s| - |DecodeEntry(s).value.2|
    ensures DecodeEntry(s[..k]) == Err(UnexpectedEof)
  {
    if k >= 4 {
      var t := s[..k];
      assert t[..4] == s[..4];
      var len: nat := LeToU32(s[..4]);
      if k >= 4 + len {
        assert t[4..][..len] == s[4..][..len];
      }
    }
  }

  /** Cut after a whole entry, the entry still reads the same and the cut moves into what follows. */
  lemma EntryOfLongerPrefix(s: seq<byte>, k: nat, key: Utf8String, rect: Rect, after: seq<byte>)
    requires DecodeEntry(s) == Ok((key, rect, after))
    requires |s| - |after| <= k <= |s|
    ensures DecodeEntry(s[..k]) == Ok((key, rect, after[..k - (|s| - |after|)]))
  {
    var t := s[..k];
    assert t[..4] == s[..4];
    var len: nat := LeToU32(s[..4]);
    var after := s[4..][len..];
    assert t[4..][..len] == s[4..][..len];
    assert t[4..][len..] == after[..k - 4 - len];
    assert after[..k - 4 - len][..16] == after[..16];
    assert after[..k - 4 - len][16..] == after[16..][..k - 20 - len];
  }

  /** A successful decoding that consumed some input read at least one entry. */
  lemma FirstEntryRead(s: seq<byte>, n: nat, acc: Table)
    requires DecodeEntries(s, n, acc).Ok? && |DecodeEntries(s, n, acc).value.1| < |s|
    ensures n > 0 && DecodeEntry(s).Ok?
  {
  }

  /** `DecodeEntriesStep` with the remaining count `m` named, so that callers pass it as it is. */
  lemma DecodeEntriesStepTo(s: seq<byte>, n: nat, m: nat, acc: Table)
    requires n == m + 1 && DecodeEntry(s).Ok?
    ensures var e := DecodeEntry(s).value;
            DecodeEntries(s, n, acc) == DecodeEntries(e.2, m, acc[e.0 := e.1])
  {
    var e := DecodeEntry(s).value;
    calc {
      DecodeEntries(s, n, acc);
      { DecodeEntriesStep(s, n, acc); }
      DecodeEntries(e.2, n - 1, acc[e.0 := e.1]);
      { assert n - 1 == m; }
      DecodeEntries(e.2, m, acc[e.0 := e.1]);
    }
  }

  /** The first entry of a decoding that consumed some input, and the decoding of what follows it. */
  lemma EntriesConsumed(s: seq<byte>, n: nat, acc: Table)
      returns (key: Utf8String, rect: Rect, after: seq<byte>, m: nat, next: Table)
    requires DecodeEntries(s, n, acc).Ok? && |DecodeEntries(s, n, acc).value.1| < |s|
    ensures n == m + 1 && next == acc[key := rect] && DecodeEntry(s) == Ok((key, rect, after))
    ensures DecodeEntries(after, m, next) == DecodeEntries(s, n, acc)
  {
    FirstEntryRead(s, n, acc);
    m := n - 1;
    DecodeEntriesStepTo(s, n, m, acc);
    var e := DecodeEntry(s).value;
    key, rect, after, next := e.0, e.1, e.2, acc[e.0 := e.1];
  }

  /** A cut inside the first entry stops the whole decoding with a short read. */
  lemma CutInFirstEntry(s: seq<byte>, n: nat, acc: Table, k: nat)
    requires n > 0 && DecodeEntry(s).Ok? && k < |s| - |DecodeEntry(s).value.2|
    ensures DecodeEntries(s[..k], n, acc) == Err(UnexpectedEof)
  {
    TruncatedEntryFails(s, k);
    EntryErrorStops(s[..k], n, acc);
  }

  /** A cut past the first entry fails exactly when the same cut of the entries after it fails. */
  lemma CutAfterFirstEntry(s: seq<byte>, n: nat, acc: Table, k: nat, key: Utf8String, rect: Rect, after: seq<byte>,
                           m: nat, next: Table, j: nat)
    requires n == m + 1 && next == acc[key := rect] && DecodeEntry(s) == Ok((key, rect, after))
    requires j == k - (|s| - |after|) && j <= |after|
    requires DecodeEntries(after[..j], m, next) == Err(UnexpectedEof)
    ensures DecodeEntries(s[..k], n, acc) == Err(UnexpectedEof)
  {
    var t := s[..k];
    EntryOfLongerPrefix(s, k, key, rect, after);
    assert DecodeEntry(t) == Ok((key, rect, after[..j]));
    DecodeEntriesStepTo(t, n, m, acc);
  }

  /**
   * Every cut of the input that `n` entry reads consume fails with a short read:
   * the cut falls inside the first entry, or the entries after it are cut.
   */
  lemma {:induction false} TruncatedEntriesFail(s: seq<byte>, n: nat, acc: Table, k: nat)
    requires DecodeEntries(s, n, acc).Ok? && k < |s| - |DecodeEntries(s, n, acc).value.1|
    decreases n
    ensures DecodeEntries(s[..k], n, acc) == Err(UnexpectedEof)
  {
    var key, rect, after, m, next := EntriesConsumed(s, n, acc);
    if k < |s| - |after| {
      CutInFirstEntry(s, n, acc, k);
    } else {
      var j: nat := k - (|s| - |after|);
      TruncatedEntriesFail(after, m, next, j);
      CutAfterFirstEntry(s, n, acc, k, key, rect, after, m, next, j);
    }
  }

  /**
   * Truncation of any input: when `from_reader` succeeds on `s`, every cut of `s`
   * before the end of the last entry fails with a short read. This covers streams
   * that are no table's encoding, such as ones with a repeated key.
   */
  lemma TruncatedInputFails(s: seq<byte>, k: nat)
    requires Decode(s).Ok? && k < |s| - |Decode(s).value.1|
    ensures Decode(s[..k]) == Err(UnexpectedEof)
  {
    if k >= 5 {
      var t := s[..k];
      assert t[1..][..4] == s[1..][..4];
      assert t[1..][4..] == s[1..][4..][..k - 5];
      TruncatedEntriesFail(s[1..][4..], LeToU32(s[1..][..4]), map[], k - 5);
    }
  }
}
