/**
 * Go's fixed-width integer types used by the digest engine, and the two `fmt`
 * verbs it uses to render numbers: `%x` on a byte array and `%08x` on an int16.
 */
module GoFmt {

  newtype byte = x: int | 0 <= x < 0x100

  newtype int16 = x: int | -0x8000 <= x < 0x8000

  /** True for the characters `0`-`9` and `a`-`f`. */
  predicate IsHexDigit(c: char)
  {
    '0' <= c <= '9' || 'a' <= c <= 'f'
  }

  /** True when `s` is made of lower-case hexadecimal digits only. */
  predicate IsLowerHex(s: string)
  {
    forall i :: 0 <= i < |s| ==> IsHexDigit(s[i])
  }

  /** The value of one lower-case hexadecimal digit. */
  function DigitValue(c: char): (v: nat)
    requires IsHexDigit(c)
    ensures v < 16
  {
    if c <= '9' then c as int - '0' as int else c as int - 'a' as int + 10
  }

  /** The lower-case digit `fmt` writes for a nibble; `DigitValue` reads it back. */
  function HexDigit(n: nat): (c: char)
    requires n < 16
    ensures IsHexDigit(c) && DigitValue(c) == n
  {
    if n < 10 then ('0' as int + n) as char else ('a' as int + n - 10) as char
  }

  /** `fmt.Sprintf("%x", bs)` for a byte array: two lower-case digits per byte,
      high nibble first. */
  function HexBytes(bs: seq<byte>): (s: string)
    ensures |s| == 2 * |bs|
    ensures IsLowerHex(s)
  {
    if bs == [] then ""
    else [HexDigit(bs[0] as int / 16), HexDigit(bs[0] as int % 16)] + HexBytes(bs[1..])
  }

  /** Reads back a string of hexadecimal digit pairs as bytes. */
  function UnhexBytes(s: string): (bs: seq<byte>)
    requires IsLowerHex(s) && |s| % 2 == 0
    ensures |bs| == |s| / 2
  {
    if s == [] then []
    else [(DigitValue(s[0]) * 16 + DigitValue(s[1])) as byte] + UnhexBytes(s[2..])
  }

  /** `%x` on bytes loses nothing: reading the digits back gives the bytes. */
  lemma {:induction false} UnhexHexBytes(bs: seq<byte>)
    ensures UnhexBytes(HexBytes(bs)) == bs
  {
    if bs != [] {
      UnhexFirstPair(bs);
      UnhexHexBytes(bs[1..]);
      assert [bs[0]] + bs[1..] == bs;
    }
  }

  lemma {:induction false} UnhexFirstPair(bs: seq<byte>)
    requires bs != []
    ensures UnhexBytes(HexBytes(bs)) == [bs[0]] + UnhexBytes(HexBytes(bs[1..]))
  {
    var s := HexBytes(bs);
    var b := bs[0] as int;
    var hi, lo := b / 16, b % 16;
    assert s[0] == HexDigit(hi) && s[1] == HexDigit(lo);
    assert s[2..] == HexBytes(bs[1..]);
    assert DigitValue(s[0]) * 16 + DigitValue(s[1]) == b;
  }

  /** `fmt.Sprintf("%x", n)` for a non-negative integer: the fewest digits that
      represent it (at least one). */
  function Hex(n: nat): (s: string)
    ensures |s| >= 1
    ensures IsLowerHex(s)
  {
    if n < 16 then [HexDigit(n)] else Hex(n / 16) + [HexDigit(n % 16)]
  }

  /** The number a string of hexadecimal digits denotes, most significant first. */
  function HexValue(s: string): nat
    requires IsLowerHex(s)
  {
    if s == [] then 0 else HexValue(s[..|s| - 1]) * 16 + DigitValue(s[|s| - 1])
  }

  /** `Hex` and `HexValue` are inverse: the rendering denotes the number. */
  lemma {:induction false} HexValueOfHex(n: nat)
    ensures HexValue(Hex(n)) == n
  {
    var s := Hex(n);
    if n < 16 {
      assert s[..0] == [];
    } else {
      assert s[..|s| - 1] == Hex(n / 16);
      HexValueOfHex(n / 16);
    }
  }

  function Pow16(k: nat): nat
  {
    if k == 0 then 1 else 16 * Pow16(k - 1)
  }

  /** A number below 16^k needs at most k digits. */
  lemma {:induction false} HexLength(n: nat, k: nat)
    requires 1 <= k && n < Pow16(k)
    ensures |Hex(n)| <= k
  {
    if n >= 16 {
      assert n / 16 < Pow16(k - 1);
      HexLength(n / 16, k - 1);
    }
  }

  function Zeros(k: nat): (z: string)
    ensures |z| == k && IsLowerHex(z)
  {
    seq(k, _ => '0')
  }

  /** Leading zeros do not change the value denoted. */
  lemma {:induction false} HexValueZeros(k: nat, s: string)
    requires IsLowerHex(s)
    ensures HexValue(Zeros(k) + s) == HexValue(s)
  {
    if s == [] {
      assert Zeros(k) + s == Zeros(k);
      ZerosValue(k);
    } else {
      var t := Zeros(k) + s;
      assert t[..|t| - 1] == Zeros(k) + s[..|s| - 1];
      HexValueZeros(k, s[..|s| - 1]);
    }
  }

  lemma {:induction false} ZerosValue(k: nat)
    ensures HexValue(Zeros(k)) == 0
  {
    if k > 0 {
      assert Zeros(k)[..k - 1] == Zeros(k - 1);
      ZerosValue(k - 1);
    }
  }

  /** `fmt.Sprintf("%08x", n)` for an int16: hexadecimal zero-padded to eight
      characters; a negative number keeps its minus sign in front and is padded
      after it, so the width still counts the sign. */
  function Hex08(n: int16): (s: string)
    ensures |s| == 8
    ensures 0 <= n ==> IsLowerHex(s) && HexValue(s) == n as int
    ensures n < 0 ==> s[0] == '-' && IsLowerHex(s[1..]) && HexValue(s[1..]) == -(n as int)
  {
    var width := if n < 0 then 7 else 8;
    var magnitude: nat := if n < 0 then -(n as int) else n as int;
    var digits := Hex(magnitude);
    assert |digits| <= 4 by {
      assert Pow16(4) == 0x10000;
      HexLength(magnitude, 4);
    }
    HexValueOfHex(magnitude);
    HexValueZeros(width - |digits|, digits);
    var padded := Zeros(width - |digits|) + digits;
    if n < 0 then
      assert ("-" + padded)[1..] == padded;
      "-" + padded
    else
      padded
  }
}
