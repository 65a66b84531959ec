/** System.Text.Encoding.UTF8 as used by the nonce store: `GetBytes` turns the
    caller's key into the bytes kept in the cache and `GetString` turns them
    back. The byte layout is that of RFC 3629 (section 3, the encoding table;
    section 4, the well-formed sequences). A Dafny `char` is a Unicode scalar
    value, so every Dafny string is well formed and encodes without loss. */
module Utf8 {
  import opened Bytes

  /** U+FFFD, which `GetString` puts in place of an ill-formed subsequence. */
  const ReplacementChar: char := '�'

  predicate IsContinuation(b: byte) {
    0x80 <= b < 0xC0
  }

  /** The one to four bytes of a single scalar value (RFC 3629, section 3). */
  function EncodeChar(c: char): (r: seq<byte>)
    ensures 1 <= |r| <= 4
    ensures r[0] < 0x80 || 0xC2 <= r[0] <= 0xF4
    ensures forall i :: 1 <= i < |r| ==> IsContinuation(r[i])
  {
    var cp := c as int;
    if cp < 0x80 then
      [cp]
    else if cp < 0x800 then
      [0xC0 + cp / 64, 0x80 + cp % 64]
    else if cp < 0x10000 then
      [0xE0 + cp / 4096, 0x80 + cp / 64 % 64, 0x80 + cp % 64]
    else
      [0xF0 + cp / 262144, 0x80 + cp / 4096 % 64, 0x80 + cp / 64 % 64, 0x80 + cp % 64]
  }

  /** Encoding.UTF8.GetBytes(string). */
  function GetBytes(s: string): (r: seq<byte>)
    ensures |s| <= |r| <= 4 * |s|
  {
    if s == [] then [] else EncodeChar(s[0]) + GetBytes(s[1..])
  }

  /** Length of the well-formed sequence a lead byte starts (RFC 3629,
      section 4); 0 when the byte cannot start one (80..C1, F5..FF). */
  function SequenceLength(b0: byte): nat {
    if b0 < 0x80 then 1
    else if 0xC2 <= b0 <= 0xDF then 2
    else if 0xE0 <= b0 <= 0xEF then 3
    else if 0xF0 <= b0 <= 0xF4 then 4
    else 0
  }

  /** The range the second byte must lie in after a multi-byte lead byte. This
      is where overlong forms, surrogates and values above U+10FFFF are
      excluded. */
  function SecondLow(b0: byte): byte {
    if b0 == 0xE0 then 0xA0 else if b0 == 0xF0 then 0x90 else 0x80
  }

  function SecondHigh(b0: byte): byte {
    if b0 == 0xED then 0x9F else if b0 == 0xF4 then 0x8F else 0xBF
  }

  /** How many bytes at the front of `bs` belong to the well-formed sequence,
      or to the maximal ill-formed prefix of one, that `bs[0]` starts. */
  function PrefixLength(bs: seq<byte>): (k: nat)
    requires |bs| > 0 && SequenceLength(bs[0]) > 0
    ensures 1 <= k <= SequenceLength(bs[0]) && k <= |bs|
  {
    var n := SequenceLength(bs[0]);
    if n == 1 || |bs| < 2 || !(SecondLow(bs[0]) <= bs[1] <= SecondHigh(bs[0])) then 1
    else if n == 2 || |bs| < 3 || !IsContinuation(bs[2]) then 2
    else if n == 3 || |bs| < 4 || !IsContinuation(bs[3]) then 3
    else 4
  }

  /** Decodes the first scalar value of `bs`, returning it with the number of
      bytes it took. An ill-formed prefix (a byte that cannot start a
      sequence, or a sequence cut short) becomes one U+FFFD. */
  function DecodeChar(bs: seq<byte>): (r: (char, nat))
    requires |bs| > 0
    ensures 1 <= r.1 <= |bs|
  {
    var n := SequenceLength(bs[0]);
    if n == 0 then
      (ReplacementChar, 1)
    else
      var k := PrefixLength(bs);
      if k < n then
        (ReplacementChar, k)
      else
        var b0, b1, b2, b3: int := bs[0], Byte(bs, 1), Byte(bs, 2), Byte(bs, 3);
        if n == 1 then
          (b0 as char, 1)
        else if n == 2 then
          (((b0 - 0xC0) * 64 + (b1 - 0x80)) as char, 2)
        else if n == 3 then
          (((b0 - 0xE0) * 4096 + (b1 - 0x80) * 64 + (b2 - 0x80)) as char, 3)
        else
          (((b0 - 0xF0) * 262144 + (b1 - 0x80) * 4096 + (b2 - 0x80) * 64 + (b3 - 0x80)) as char, 4)
  }

  /** The byte at index `i`, or 0 past the end. */
  function Byte(bs: seq<byte>, i: nat): byte {
    if i < |bs| then bs[i] else 0
  }

  /** Encoding.UTF8.GetString(byte[]). */
  function GetString(bs: seq<byte>): (s: string)
    ensures |s| <= |bs|
    ensures s == [] <==> bs == []
    decreases |bs|
  {
    if bs == [] then [] else
      var (c, k) := DecodeChar(bs);
      [c] + GetString(bs[k..])
  }

  /** Decoding the front of an encoded scalar value gives that value back and
      consumes exactly its bytes, whatever follows. */
  lemma DecodeEncodeChar(c: char, rest: seq<byte>)
    ensures DecodeChar(EncodeChar(c) + rest) == (c, |EncodeChar(c)|)
  {
    var e := EncodeChar(c);
    var bs := e + rest;
    var cp := c as int;
    assert bs[..|e|] == e;
    if cp < 0x80 {
    } else if cp < 0x800 {
      assert cp == (cp / 64) * 64 + cp % 64;
    } else if cp < 0x10000 {
      assert cp / 64 == (cp / 4096) * 64 + cp / 64 % 64;
      assert cp == (cp / 64) * 64 + cp % 64;
    } else {
      assert cp / 4096 == (cp / 262144) * 64 + cp / 4096 % 64;
      assert cp / 64 == (cp / 4096) * 64 + cp / 64 % 64;
      assert cp == (cp / 64) * 64 + cp % 64;
    }
  }

  /** GetString inverts GetBytes on every string. */
  lemma {:induction false} GetStringGetBytes(s: string)
    ensures GetString(GetBytes(s)) == s
  {
    if s != [] {
      var e := EncodeChar(s[0]);
      var tail := GetBytes(s[1..]);
      DecodeEncodeChar(s[0], tail);
      assert (e + tail)[|e|..] == tail;
      GetStringGetBytes(s[1..]);
    }
  }

  /** Distinct keys are stored as distinct byte strings. */
  lemma GetBytesInjective(s: string, t: string)
    requires GetBytes(s) == GetBytes(t)
    ensures s == t
  {
    GetStringGetBytes(s);
    GetStringGetBytes(t);
  }
}
