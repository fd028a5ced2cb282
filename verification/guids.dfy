/** Message identifiers. A `Guid` is a 128-bit value, written here as the
    number whose 32 hexadecimal digits are the digits of its standard
    textual form; `Guid.Empty` is zero. */
module Guids {

  /** 16^k: the number of values k hexadecimal digits can hold. */
  function Pow16(k: nat): (r: nat)
    ensures r > 0
  {
    if k == 0 then 1 else 16 * Pow16(k - 1)
  }

  type Guid = g: nat | g < Pow16(32) witness 0

  /** `Guid.Empty`, the all-zero identifier. */
  const EmptyGuid: Guid := 0

  /** The lower-case hexadecimal digit for `d`. */
  function HexDigit(d: nat): (c: char)
    requires d < 16
    ensures IsHexDigit(c)
  {
    if d < 10 then (48 + d) as char else (97 + d - 10) as char
  }

  predicate IsHexDigit(c: char) {
    '0' <= c <= '9' || 'a' <= c <= 'f'
  }

  /** The value of a lower-case hexadecimal digit. */
  function DigitValue(c: char): (d: nat)
    requires IsHexDigit(c)
    ensures d < 16
  {
    if c <= '9' then c as int - 48 else c as int - 97 + 10
  }

  /** The last `k` hexadecimal digits of `n`, most significant first. */
  function Hex(n: nat, k: nat): (r: seq<char>)
    ensures |r| == k
    ensures forall i :: 0 <= i < |r| ==> IsHexDigit(r[i])
  {
    if k == 0 then [] else Hex(n / 16, k - 1) + [HexDigit(n % 16)]
  }

  /** The number written by a string of hexadecimal digits. */
  function ParseHex(s: seq<char>): nat
    requires forall i :: 0 <= i < |s| ==> IsHexDigit(s[i])
  {
    if |s| == 0 then 0 else ParseHex(s[..|s| - 1]) * 16 + DigitValue(s[|s| - 1])
  }

  /** `Guid.ToString()`: 32 lower-case hex digits grouped 8-4-4-4-12 by dashes. */
  function IdString(g: Guid): (s: string)
    ensures |s| == 36
    ensures s[8] == s[13] == s[18] == s[23] == '-'
    ensures forall i :: 0 <= i < 36 && i != 8 && i != 13 && i != 18 && i != 23 ==> IsHexDigit(s[i])
  {
    var h := Hex(g, 32);
    h[..8] + "-" + h[8..12] + "-" + h[12..16] + "-" + h[16..20] + "-" + h[20..]
  }

  /** Reads back the value written by `IdString`. */
  function ParseId(s: string): nat
    requires |s| == 36
    requires forall i :: 0 <= i < 36 && i != 8 && i != 13 && i != 18 && i != 23 ==> IsHexDigit(s[i])
  {
    ParseHex(s[..8] + s[9..13] + s[14..18] + s[19..23] + s[24..])
  }

  lemma DigitRoundTrip(d: nat)
    requires d < 16
    ensures DigitValue(HexDigit(d)) == d
  {
  }

  /** Writing `k` digits of a number below 16^k and reading them back is the identity. */
  lemma {:induction false} HexRoundTrip(n: nat, k: nat)
    requires n < Pow16(k)
    ensures ParseHex(Hex(n, k)) == n
  {
    if k > 0 {
      var h := Hex(n, k);
      assert h[..|h| - 1] == Hex(n / 16, k - 1);
      assert h[|h| - 1] == HexDigit(n % 16);
      HexRoundTrip(n / 16, k - 1);
      DigitRoundTrip(n % 16);
    }
  }

  /** Every identifier is recovered from its text, so distinct identifiers
      have distinct texts. */
  lemma IdStringRoundTrip(g: Guid)
    ensures forall i :: 0 <= i < 36 && i != 8 && i != 13 && i != 18 && i != 23 ==> IsHexDigit(IdString(g)[i])
    ensures ParseId(IdString(g)) == g
  {
    var h := Hex(g, 32);
    var s := IdString(g);
    assert s[..8] == h[..8];
    assert s[9..13] == h[8..12];
    assert s[14..18] == h[12..16];
    assert s[19..23] == h[16..20];
    assert s[24..] == h[20..];
    assert h[..8] + h[8..12] + h[12..16] + h[16..20] + h[20..] == h;
    HexRoundTrip(g, 32);
  }

  lemma IdStringInjective(g1: Guid, g2: Guid)
    ensures IdString(g1) == IdString(g2) <==> g1 == g2
  {
    IdStringRoundTrip(g1);
    IdStringRoundTrip(g2);
  }
}
