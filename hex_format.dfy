/** The .NET text operations the nonce derivation chains together:
    BitConverter.ToString(byte[]), String.Replace(string, string),
    String.Substring(int, int) and String.ToLowerInvariant(), each modelled on
    its own, with the hexadecimal renderings they are proved to build. */
module HexFormat {
  import opened Wrappers
  import opened Bytes

  /** The exception String.Substring throws for a range outside the string. */
  datatype StringError = ArgumentOutOfRange

  /** The digit BitConverter.ToString writes for a nibble: 0-9, then A-F. */
  function UpperHexDigit(d: int): char
    requires 0 <= d < 16
  {
    if d < 10 then (48 + d) as char else (55 + d) as char
  }

  /** The digit of the same nibble in lower case: 0-9, then a-f. */
  function LowerHexDigit(d: int): char
    requires 0 <= d < 16
  {
    if d < 10 then (48 + d) as char else (87 + d) as char
  }

  predicate IsUpperHexDigit(c: char) {
    '0' <= c <= '9' || 'A' <= c <= 'F'
  }

  predicate IsLowerHexDigit(c: char) {
    '0' <= c <= '9' || 'a' <= c <= 'f'
  }

  /** The nibble a lower-case digit stands for. */
  function LowerHexValue(c: char): (d: int)
    requires IsLowerHexDigit(c)
    ensures 0 <= d < 16 && LowerHexDigit(d) == c
  {
    if c <= '9' then c as int - 48 else c as int - 87
  }

  /** Two upper-case digits per byte, high nibble first. */
  function ByteToUpperHex(b: byte): string {
    [UpperHexDigit(b / 16), UpperHexDigit(b % 16)]
  }

  function ByteToLowerHex(b: byte): string {
    [LowerHexDigit(b / 16), LowerHexDigit(b % 16)]
  }

  /** BitConverter.ToString(byte[]): each byte as two upper-case digits, with
      a '-' between consecutive bytes ("01-AB-FF"); the empty array gives "". */
  function BitConverterToString(bs: seq<byte>): (s: string)
    ensures |s| == if bs == [] then 0 else 3 * |bs| - 1
  {
    if |bs| == 0 then ""
    else if |bs| == 1 then ByteToUpperHex(bs[0])
    else ByteToUpperHex(bs[0]) + "-" + BitConverterToString(bs[1..])
  }

  /** Byte k occupies characters 3k and 3k+1, and a '-' follows every byte
      but the last. */
  lemma {:induction false} BitConverterLayout(bs: seq<byte>, k: nat)
    requires k < |bs|
    ensures |BitConverterToString(bs)| == 3 * |bs| - 1
    ensures BitConverterToString(bs)[3 * k..3 * k + 2] == ByteToUpperHex(bs[k])
    ensures k < |bs| - 1 ==> BitConverterToString(bs)[3 * k + 2] == '-'
  {
    if k > 0 {
      BitConverterLayout(bs[1..], k - 1);
      var t := BitConverterToString(bs[1..]);
      assert BitConverterToString(bs) == ByteToUpperHex(bs[0]) + "-" + t;
      assert BitConverterToString(bs)[3 * k..3 * k + 2] == t[3 * (k - 1)..3 * (k - 1) + 2];
    }
  }

  /** String.Replace(oldValue, newValue) with ordinal comparison: every
      occurrence of `oldValue`, scanned from the left without overlap, is
      replaced by `newValue`. .NET throws for an empty `oldValue`, which the
      only call site never passes. */
  function Replace(s: string, oldValue: string, newValue: string): (r: string)
    requires oldValue != ""
    ensures (forall i :: 0 <= i <= |s| - |oldValue| ==> !OccursAt(s, oldValue, i)) ==> r == s
    ensures |oldValue| == 1 && oldValue[0] !in newValue ==> oldValue[0] !in r
    decreases |s|
  {
    if |s| < |oldValue| then s
    else
    assert s[..|oldValue|] == oldValue ==> OccursAt(s, oldValue, 0);
    assert forall i :: 0 <= i <= |s| - 1 - |oldValue| && OccursAt(s[1..], oldValue, i) ==> OccursAt(s, oldValue, i + 1);
    if s[..|oldValue|] == oldValue then newValue + Replace(s[|oldValue|..], oldValue, newValue)
    else [s[0]] + Replace(s[1..], oldValue, newValue)
  }

  /** `oldValue` occurs in `s` at index `i`. */
  predicate OccursAt(s: string, oldValue: string, i: int) {
    0 <= i <= |s| - |oldValue| && s[i..i + |oldValue|] == oldValue
  }

  /** String.Substring(startIndex, length): the `length` characters from
      `startIndex`, or ArgumentOutOfRangeException when the range is not
      inside the string. */
  function Substring(s: string, startIndex: int, length: int): (r: Result<string, StringError>)
    ensures r.Ok? <==> 0 <= startIndex && 0 <= length && startIndex + length <= |s|
    ensures r.Ok? ==> |r.value| == length
  {
    if 0 <= startIndex && 0 <= length && startIndex + length <= |s| then
      Ok(s[startIndex..startIndex + length])
    else
      Err(ArgumentOutOfRange)
  }

  function ToLowerChar(c: char): char {
    if 'A' <= c <= 'Z' then (c as int + 32) as char else c
  }

  /** String.ToLowerInvariant() on the ASCII letters; every other character
      is kept. */
  function ToLowerInvariant(s: string): (r: string)
    ensures |r| == |s|
  {
    seq(|s|, i requires 0 <= i < |s| => ToLowerChar(s[i]))
  }

  /** The digits of `bs` in upper case with no separators. */
  function UpperHex(bs: seq<byte>): string {
    if bs == [] then "" else ByteToUpperHex(bs[0]) + UpperHex(bs[1..])
  }

  /** The digits of `bs` in lower case with no separators: the reference the
      derived nonce is compared with. */
  function LowerHex(bs: seq<byte>): (s: string)
    ensures |s| == 2 * |bs|
    ensures forall i :: 0 <= i < |s| ==> IsLowerHexDigit(s[i])
  {
    if bs == [] then "" else ByteToLowerHex(bs[0]) + LowerHex(bs[1..])
  }

  /** Reads a string of lower-case digit pairs back into bytes; None for an
      odd length or a character that is not a lower-case digit. */
  function ParseLowerHex(s: string): Option<seq<byte>>
    decreases |s|
  {
    if s == [] then Some([])
    else if |s| < 2 || !IsLowerHexDigit(s[0]) || !IsLowerHexDigit(s[1]) then None
    else match ParseLowerHex(s[2..])
      case None => None
      case Some(rest) => Some([LowerHexValue(s[0]) * 16 + LowerHexValue(s[1])] + rest)
  }

  /** Removing the separators from BitConverter's rendering, the way the
      nonce derivation calls Replace("-", ""), leaves the plain upper-case
      digits. */
  lemma {:induction false} ReplaceSeparators(bs: seq<byte>)
    ensures Replace(BitConverterToString(bs), "-", "") == UpperHex(bs)
  {
    if |bs| == 1 {
      ReplaceKeepsPair(ByteToUpperHex(bs[0]), "");
      assert UpperHex(bs[1..]) == "";
    } else if |bs| > 1 {
      var h, t := ByteToUpperHex(bs[0]), BitConverterToString(bs[1..]);
      assert BitConverterToString(bs) == h + ("-" + t);
      ReplaceKeepsPair(h, "-" + t);
      assert ("-" + t)[1..] == t;
      ReplaceSeparators(bs[1..]);
      assert UpperHex(bs) == h + UpperHex(bs[1..]);
    }
  }

  /** Two digits are kept; a '-' right after them is dropped. */
  lemma ReplaceKeepsPair(h: string, rest: string)
    requires |h| == 2 && h[0] != '-' && h[1] != '-'
    requires rest == "" || rest[0] == '-'
    ensures Replace(h + rest, "-", "") == h + Replace(if rest == "" then "" else rest[1..], "-", "")
  {
    ReplaceKeeps(h + rest, "-", "");
    assert (h + rest)[1..] == [h[1]] + rest;
    if rest == "" {
      assert ([h[1]] + rest)[1..] == [];
      assert Replace([h[1]], "-", "") == [h[1]];
    } else {
      ReplaceKeeps([h[1]] + rest, "-", "");
      assert ([h[1]] + rest)[1..] == rest;
      assert rest[..1] == "-";
    }
  }

  /** A string that does not start with `oldValue` keeps its first character. */
  lemma ReplaceKeeps(s: string, oldValue: string, newValue: string)
    requires oldValue != "" && |s| >= |oldValue|
    requires s[0] != oldValue[0]
    ensures Replace(s, oldValue, newValue) == [s[0]] + Replace(s[1..], oldValue, newValue)
  {
    assert s[..|oldValue|][0] != oldValue[0];
  }

  lemma {:induction false} UpperHexLength(bs: seq<byte>)
    ensures |UpperHex(bs)| == 2 * |bs|
  {
    if bs != [] {
      UpperHexLength(bs[1..]);
    }
  }

  /** The first 2k digits are the digits of the first k bytes. */
  lemma {:induction false} UpperHexPrefix(bs: seq<byte>, k: nat)
    requires k <= |bs|
    ensures |UpperHex(bs)| == 2 * |bs|
    ensures UpperHex(bs)[..2 * k] == UpperHex(bs[..k])
  {
    UpperHexLength(bs);
    if k > 0 {
      UpperHexPrefix(bs[1..], k - 1);
      assert bs[..k][1..] == bs[1..][..k - 1];
      assert UpperHex(bs)[..2 * k] == ByteToUpperHex(bs[0]) + UpperHex(bs[1..])[..2 * (k - 1)];
    }
  }

  /** Lower-casing upper-case digits gives the lower-case digits. */
  lemma {:induction false} LowerUpperHex(bs: seq<byte>)
    ensures ToLowerInvariant(UpperHex(bs)) == LowerHex(bs)
  {
    if bs != [] {
      LowerUpperHex(bs[1..]);
      UpperHexLength(bs[1..]);
      var u := UpperHex(bs);
      assert u == ByteToUpperHex(bs[0]) + UpperHex(bs[1..]);
      forall i | 0 <= i < |u|
        ensures ToLowerInvariant(u)[i] == LowerHex(bs)[i]
      {
        if i >= 2 {
          assert u[i] == UpperHex(bs[1..])[i - 2];
          assert ToLowerInvariant(UpperHex(bs[1..]))[i - 2] == ToLowerChar(u[i]);
        }
      }
    }
  }

  /** ParseLowerHex inverts LowerHex. */
  lemma {:induction false} ParseLowerHexRoundTrip(bs: seq<byte>)
    ensures ParseLowerHex(LowerHex(bs)) == Some(bs)
  {
    if bs != [] {
      var s := LowerHex(bs);
      assert s[2..] == LowerHex(bs[1..]);
      ParseLowerHexRoundTrip(bs[1..]);
      assert LowerHexValue(s[0]) == bs[0] / 16;
      assert LowerHexValue(s[1]) == bs[0] % 16;
      assert IsLowerHexDigit(s[0]) && IsLowerHexDigit(s[1]);
      assert ParseLowerHex(s) == Some([bs[0]] + bs[1..]);
      assert [bs[0]] + bs[1..] == bs;
    }
  }

  /** And LowerHex inverts ParseLowerHex: a string of lower-case digit pairs
      is the rendering of exactly one byte sequence. */
  lemma {:induction false} LowerHexOfParsed(s: string)
    requires ParseLowerHex(s).Some?
    ensures LowerHex(ParseLowerHex(s).value) == s
  {
    if s != [] {
      LowerHexOfParsed(s[2..]);
      var b := LowerHexValue(s[0]) * 16 + LowerHexValue(s[1]);
      assert b / 16 == LowerHexValue(s[0]) && b % 16 == LowerHexValue(s[1]);
      assert ParseLowerHex(s).value == [b] + ParseLowerHex(s[2..]).value;
    }
  }

  lemma LowerHexInjective(a: seq<byte>, b: seq<byte>)
    ensures LowerHex(a) == LowerHex(b) <==> a == b
  {
    if LowerHex(a) == LowerHex(b) {
      ParseLowerHexRoundTrip(a);
      ParseLowerHexRoundTrip(b);
    }
  }
}
