/**
 * UTF-8 well-formedness as `String::from_utf8` checks it: the well-formed byte
 * sequences of the Unicode Standard (Table 3-7, "Well-Formed UTF-8 Byte Sequences"),
 * which exclude overlong forms, surrogates and code points above U+10FFFF.
 */
module Utf8 {
  import opened Bytes

  predicate Continuation(b: byte) {
    0x80 <= b <= 0xBF
  }

  /**
   * The length of the well-formed sequence that starts `s`, or 0 when `s`
   * does not start with one (a stray continuation byte, an invalid lead byte,
   * a wrong or missing continuation byte).
   */
  function LeadLength(s: seq<byte>): (n: nat)
    requires |s| > 0
    ensures n <= 4 && n <= |s|
    ensures s[0] < 0x80 <==> n == 1
  {
    var b := s[0];
    var n := if b < 0x80 then 1 else if b < 0xC2 then 0 else if b < 0xE0 then 2
             else if b < 0xF0 then 3 else if b < 0xF5 then 4 else 0;
    // the second byte's range is narrower after E0, ED, F0 and F4
    var lo := if b == 0xE0 then 0xA0 else if b == 0xF0 then 0x90 else 0x80;
    var hi := if b == 0xED then 0x9F else if b == 0xF4 then 0x8F else 0xBF;
    if n <= 1 then n
    else if |s| >= n && lo <= s[1] <= hi && (n < 3 || Continuation(s[2])) && (n < 4 || Continuation(s[3])) then n
    else 0
  }

  /** `s` splits into well-formed sequences with nothing left over. */
  predicate ValidUtf8(s: seq<byte>)
    decreases |s|
    ensures ValidUtf8(s) ==> forall i | 0 <= i < |s| :: s[i] != 0xC0 && s[i] != 0xC1 && s[i] < 0xF5
  {
    s == [] || (LeadLength(s) > 0 && ValidUtf8(s[LeadLength(s)..]))
  }

  /** Rust `String`: bytes that are valid UTF-8. */
  type Utf8String = s: seq<byte> | ValidUtf8(s) witness []

  /** Every ASCII byte string is valid UTF-8 (the names in the sample sheet are ASCII). */
  lemma {:induction false} AsciiIsValid(s: seq<byte>)
    requires forall i | 0 <= i < |s| :: s[i] < 0x80
    ensures ValidUtf8(s)
  {
    if s != [] {
      assert LeadLength(s) == 1;
      AsciiIsValid(s[1..]);
    }
  }

  /** A string whose first byte is a continuation byte or can never lead a sequence is rejected. */
  lemma BadLeadIsInvalid(s: seq<byte>)
    requires |s| > 0 && (Continuation(s[0]) || s[0] in {0xC0, 0xC1} || s[0] >= 0xF5)
    ensures !ValidUtf8(s)
  {
  }
}
