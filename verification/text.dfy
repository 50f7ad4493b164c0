/** The small string operations of Go's standard library that the converter
    relies on: strings.TrimPrefix/TrimSuffix/ToLower, fmt's %d and %x verbs
    and encoding/hex.EncodeToString. Strings are sequences of characters;
    only ASCII letters are case-folded. */
module Text {

  datatype Option<+T> = None | Some(value: T)

  newtype byte = x: int | 0 <= x < 256

  predicate EndsWith(s: string, suffix: string) {
    |suffix| <= |s| && s[|s| - |suffix|..] == suffix
  }

  /** No character of s is a dot or a path separator. */
  predicate NoDotNoSlash(s: string) {
    forall i :: 0 <= i < |s| ==> s[i] != '.' && s[i] != '/'
  }

  function TrimPrefix(s: string, prefix: string): (r: string)
    ensures prefix <= s ==> prefix + r == s
    ensures !(prefix <= s) ==> r == s
  {
    if prefix <= s then s[|prefix|..] else s
  }

  function TrimSuffix(s: string, suffix: string): (r: string)
    ensures EndsWith(s, suffix) ==> r + suffix == s
    ensures !EndsWith(s, suffix) ==> r == s
  {
    if EndsWith(s, suffix) then s[..|s| - |suffix|] else s
  }

  function LowerChar(c: char): char {
    if 'A' <= c <= 'Z' then (c as int + 32) as char else c
  }

  /** strings.ToLower on ASCII: every capital becomes its lower-case letter,
      every other character stays, and no capital is left. */
  function Lower(s: string): (r: string)
    ensures |r| == |s|
    ensures forall i :: 0 <= i < |r| ==> !('A' <= r[i] <= 'Z')
    ensures forall i :: 0 <= i < |s| ==>
              r[i] == s[i] || ('A' <= s[i] <= 'Z' && r[i] as int == s[i] as int + 32)
  {
    seq(|s|, i requires 0 <= i < |s| => LowerChar(s[i]))
  }

  // ---- digits ----

  function DigitChar(d: nat): char
    requires d < 16
  {
    "0123456789abcdef"[d]
  }

  predicate IsDecimalDigit(c: char) { '0' <= c <= '9' }

  predicate IsLowerHexDigit(c: char) { '0' <= c <= '9' || 'a' <= c <= 'f' }

  predicate AllDecimal(s: string) { forall i :: 0 <= i < |s| ==> IsDecimalDigit(s[i]) }

  predicate AllLowerHex(s: string) { forall i :: 0 <= i < |s| ==> IsLowerHexDigit(s[i]) }

  function DigitValue(c: char): nat {
    if '0' <= c <= '9' then c as int - '0' as int
    else if 'a' <= c <= 'f' then c as int - 'a' as int + 10
    else 0
  }

  lemma DigitRoundTrip(d: nat)
    requires d < 16
    ensures DigitValue(DigitChar(d)) == d && IsLowerHexDigit(DigitChar(d))
    ensures d < 10 ==> IsDecimalDigit(DigitChar(d))
  {
  }

  /** The number a string of decimal digits denotes. */
  function DecimalValue(s: string): nat {
    if s == [] then 0 else DecimalValue(s[..|s| - 1]) * 10 + DigitValue(s[|s| - 1])
  }

  /** The number a string of lower-case hex digits denotes. */
  function HexValue(s: string): nat {
    if s == [] then 0 else HexValue(s[..|s| - 1]) * 16 + DigitValue(s[|s| - 1])
  }

  /** fmt's %d of a non-negative integer: no sign, no leading zeros. */
  function DecimalString(n: nat): (r: string)
    ensures 1 <= |r| && AllDecimal(r)
    ensures DecimalValue(r) == n
    ensures |r| > 1 ==> r[0] != '0'
    decreases n
  {
    DigitRoundTrip(n % 10);
    if n < 10 then [DigitChar(n)]
    else
      var hi := DecimalString(n / 10);
      assert (hi + [DigitChar(n % 10)])[..|hi|] == hi;
      hi + [DigitChar(n % 10)]
  }

  lemma DecimalStringInjective(m: nat, n: nat)
    requires DecimalString(m) == DecimalString(n)
    ensures m == n
  {
  }

  /** fmt's %x of a non-negative integer: lower-case digits, no leading zeros. */
  function FormatHex(n: nat): (r: string)
    ensures 1 <= |r| && AllLowerHex(r)
    ensures HexValue(r) == n
    ensures |r| > 1 ==> r[0] != '0'
    decreases n
  {
    DigitRoundTrip(n % 16);
    if n < 16 then [DigitChar(n)]
    else
      var hi := FormatHex(n / 16);
      assert (hi + [DigitChar(n % 16)])[..|hi|] == hi;
      hi + [DigitChar(n % 16)]
  }

  function Pow16(k: nat): (p: nat)
    ensures p >= 1
  {
    if k == 0 then 1 else 16 * Pow16(k - 1)
  }

  /** A number below 16^k is written with at most k hex digits. */
  lemma {:induction false} FormatHexLength(n: nat, k: nat)
    requires 1 <= k && n < Pow16(k)
    ensures |FormatHex(n)| <= k
    decreases k
  {
    if n >= 16 {
      assert n / 16 < Pow16(k - 1);
      FormatHexLength(n / 16, k - 1);
    }
  }

  /** hex.EncodeToString: two lower-case hex digits per byte, high nibble first. */
  function EncodeHex(bytes: seq<byte>): (r: string)
    ensures |r| == 2 * |bytes| && AllLowerHex(r)
  {
    if bytes == [] then []
    else
      var last := bytes[|bytes| - 1];
      var init := EncodeHex(bytes[..|bytes| - 1]);
      HexPairDigits(init, last);
      init + HexPair(last)
  }

  /** Decoding an encoding gives the bytes back. */
  lemma {:induction false} HexRoundTrip(bytes: seq<byte>)
    ensures DecodeHex(EncodeHex(bytes)) == bytes
  {
    if bytes != [] {
      var last := bytes[|bytes| - 1];
      var init := bytes[..|bytes| - 1];
      HexRoundTrip(init);
      HexByteSnoc(EncodeHex(init), last);
      assert bytes == init + [last];
    }
  }

  /** The two digits of one byte. */
  function HexPair(b: byte): string {
    [DigitChar(b as int / 16), DigitChar(b as int % 16)]
  }

  lemma HexPairDigits(init: string, b: byte)
    requires AllLowerHex(init)
    ensures AllLowerHex(init + HexPair(b))
  {
    DigitRoundTrip(b as int / 16);
    DigitRoundTrip(b as int % 16);
    var r := init + HexPair(b);
    forall k | 0 <= k < |r| ensures IsLowerHexDigit(r[k]) {
      if k < |init| { assert r[k] == init[k]; }
    }
  }

  /** Appending the digits of one byte to an encoding appends that byte to
      what it decodes to. */
  lemma HexByteSnoc(init: string, b: byte)
    ensures DecodeHex(init + HexPair(b)) == DecodeHex(init) + [b]
  {
    var h, l := b as int / 16, b as int % 16;
    DigitRoundTrip(h);
    DigitRoundTrip(l);
    var r := init + HexPair(b);
    assert r[..|r| - 2] == init;
    assert r[|r| - 2] == DigitChar(h) && r[|r| - 1] == DigitChar(l);
    assert (h * 16 + l) as byte == b;
  }

  /** Splitting off the last character of the right operand. */
  lemma SnocSplit(s: string, t: string)
    requires t != []
    ensures s + t == (s + t[..|t| - 1]) + [t[|t| - 1]]
  {
  }

  lemma Regroup(a: string, b: string, c: string, d: string)
    ensures a + b + c + d == a + (b + c) + d
  {
  }

  /** Strings that differ only in the middle differ. */
  lemma MiddleDiffers(a: string, x: string, y: string, c: string)
    requires x != y
    ensures a + x + c != a + y + c
  {
    if |x| == |y| {
      var k :| 0 <= k < |x| && x[k] != y[k];
      assert (a + x + c)[|a| + k] == x[k];
      assert (a + y + c)[|a| + k] == y[k];
    }
  }

  /** The inverse of EncodeHex: each pair of digits gives one byte. */
  function DecodeHex(s: string): (bytes: seq<byte>)
    ensures |bytes| == |s| / 2
  {
    if |s| < 2 then []
    else
      var hi := DigitValue(s[|s| - 2]) % 16;
      var lo := DigitValue(s[|s| - 1]) % 16;
      DecodeHex(s[..|s| - 2]) + [(hi * 16 + lo) as byte]
  }
}
