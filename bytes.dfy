/** Byte-level primitives shared by the mapping-table codec and the raw image codec. */
module Bytes {
  import opened Results

  /** Rust `u8`. */
  type byte = x: int | 0 <= x < 0x100

  const U32_LIMIT: nat := 0x1_0000_0000

  /** Rust `u32`. */
  type u32 = x: int | 0 <= x < 0x1_0000_0000

  /** Rust `n as u32` applied to a `usize`: only the low 32 bits survive. */
  function TruncateU32(n: nat): (r: u32)
    ensures r <= n
    ensures r == n <==> n < U32_LIMIT
  {
    n % U32_LIMIT
  }

  /** `u32::to_le_bytes`: four bytes, least significant first. */
  function U32ToLe(v: u32): (b: seq<byte>)
    ensures |b| == 4 && LeToU32(b) == v
  {
    var q1 := v / 0x100;
    var q2 := q1 / 0x100;
    var q3 := q2 / 0x100;
    assert q3 < 0x100;
    assert v == v % 0x100 + 0x100 * (q1 % 0x100 + 0x100 * (q2 % 0x100 + 0x100 * q3));
    [v % 0x100, q1 % 0x100, q2 % 0x100, q3]
  }

  /** `u32::from_le_bytes`. */
  function LeToU32(b: seq<byte>): (v: u32)
    requires |b| == 4
    ensures v % 0x100 == b[0] && v / 0x100_0000 == b[3]
  {
    var b0, b1, b2, b3: int := b[0], b[1], b[2], b[3];
    b0 + 0x100 * (b1 + 0x100 * (b2 + 0x100 * b3))
  }

  /** Every four bytes are the encoding of exactly one u32, so the encoding is a bijection. */
  lemma LeToU32Inverse(b: seq<byte>)
    requires |b| == 4
    ensures U32ToLe(LeToU32(b)) == b
  {
    var v := LeToU32(b);
    var b0, b1, b2, b3: int := b[0], b[1], b[2], b[3];
    var q1 := v / 0x100;
    var q2 := q1 / 0x100;
    var q3 := q2 / 0x100;
    assert v % 0x100 == b0 && q1 == b1 + 0x100 * (b2 + 0x100 * b3);
    assert q1 % 0x100 == b1 && q2 == b2 + 0x100 * b3;
    assert q2 % 0x100 == b2 && q3 == b3;
  }

  /** `read_exact` into a 4-byte buffer followed by `u32::from_le_bytes`, on the unread input `s`. */
  function ReadU32(s: seq<byte>): (r: Result<(u32, seq<byte>)>)
    ensures r.Ok? <==> |s| >= 4
    ensures r.Err? ==> r.error == UnexpectedEof
  {
    if |s| < 4 then Err(UnexpectedEof) else Ok((LeToU32(s[..4]), s[4..]))
  }

  /** Reading a u32 back from its own encoding gives the value and leaves what follows untouched. */
  lemma ReadU32Encoded(v: u32, rest: seq<byte>)
    ensures ReadU32(U32ToLe(v) + rest) == Ok((v, rest))
  {
    var s := U32ToLe(v) + rest;
    assert s[..4] == U32ToLe(v) && s[4..] == rest;
  }

  /** Conversely, the bytes `ReadU32` consumed are the encoding of the value it returns. */
  lemma ReadU32Consumed(s: seq<byte>)
    requires |s| >= 4
    ensures U32ToLe(ReadU32(s).value.0) + ReadU32(s).value.1 == s
  {
    LeToU32Inverse(s[..4]);
    assert s == s[..4] + s[4..];
  }
}
