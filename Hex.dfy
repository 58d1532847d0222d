/**
 * Bytes and their hexadecimal text, as Python's `bytes.hex()`, `bytes.fromhex()`
 * and the format specification `02x` treat them. Every frame of the light's
 * protocol travels through these: the client keeps frames as hex strings and
 * decodes them just before sending.
 */
module Hex {
  import opened Wrappers

  /** A byte of a datagram; Python's `bytes` elements are the integers 0..255. */
  type Byte = x: int | 0 <= x < 256

  /** The value of one hexadecimal digit; `fromhex` accepts both cases. */
  function DigitValue(c: char): (r: Option<int>)
    ensures r.Some? <==> IsHexDigit(c)
    ensures r.Some? ==> 0 <= r.value < 16
  {
    if '0' <= c <= '9' then Some(c as int - '0' as int)
    else if 'a' <= c <= 'f' then Some(c as int - 'a' as int + 10)
    else if 'A' <= c <= 'F' then Some(c as int - 'A' as int + 10)
    else None
  }

  predicate IsHexDigit(c: char) {
    '0' <= c <= '9' || 'a' <= c <= 'f' || 'A' <= c <= 'F'
  }

  predicate IsLowerHexDigit(c: char) {
    '0' <= c <= '9' || 'a' <= c <= 'f'
  }

  /** A string made only of lowercase hexadecimal digits. */
  predicate IsLowerHex(s: string) {
    forall i | 0 <= i < |s| :: IsLowerHexDigit(s[i])
  }

  /** The lowercase digit that denotes `n`. */
  function HexDigit(n: int): (c: char)
    requires 0 <= n < 16
    ensures IsLowerHexDigit(c) && DigitValue(c) == Some(n)
  {
    if n < 10 then ('0' as int + n) as char else ('a' as int + n - 10) as char
  }

  /** Two lowercase digits, high nibble first, as `bytes.hex()` writes one byte. */
  function ByteToHex(b: Byte): string {
    [HexDigit(b / 16), HexDigit(b % 16)]
  }

  /** The two digits are lowercase and denote the high and the low nibble. */
  lemma ByteToHexDigits(b: Byte)
    ensures var s := ByteToHex(b);
      |s| == 2 && IsLowerHex(s) && DigitValue(s[0]) == Some(b / 16) && DigitValue(s[1]) == Some(b % 16)
  {
  }

  /** `bytes.hex()`: two lowercase digits per byte, in order. */
  function ToHex(bs: seq<Byte>): (s: string)
    ensures |s| == 2 * |bs|
  {
    if bs == [] then "" else ByteToHex(bs[0]) + ToHex(bs[1..])
  }

  lemma {:induction false} ToHexIsLower(bs: seq<Byte>)
    ensures IsLowerHex(ToHex(bs))
  {
    if bs != [] {
      ToHexIsLower(bs[1..]);
      ByteToHexDigits(bs[0]);
      var s := ToHex(bs);
      forall i | 0 <= i < |s| ensures IsLowerHexDigit(s[i]) {
        if i >= 2 {
          assert s[i] == ToHex(bs[1..])[i - 2];
        }
      }
    }
  }

  /**
   * `bytes.fromhex()`: a pair of digits per byte; `None` stands for the
   * `ValueError` raised on an odd length or a non-hexadecimal character.
   */
  function FromHex(s: string): (r: Option<seq<Byte>>)
    ensures r.Some? ==> 2 * |r.value| == |s|
    ensures |s| % 2 == 1 ==> r.None?
    decreases |s|
  {
    if |s| == 0 then Some([])
    else if |s| == 1 then None
    else
      match (DigitValue(s[0]), DigitValue(s[1]), FromHex(s[2..]))
      case (Some(h), Some(l), Some(rest)) => Some([h * 16 + l] + rest)
      case _ => None
  }

  /** Python's `format(n, 'x')` for `n >= 0`: hexadecimal without leading zeros. */
  function HexNat(n: nat): (s: string)
    ensures 1 <= |s| && IsLowerHex(s)
    ensures |s| == 1 <==> n < 16
    ensures n < 256 ==> |s| <= 2
  {
    if n < 16 then [HexDigit(n)] else HexNat(n / 16) + [HexDigit(n % 16)]
  }

  /** Python's `f'{n:02x}'` for `n >= 0`: at least two digits, zero-padded. */
  function Format02x(n: nat): (s: string)
    ensures 2 <= |s| && IsLowerHex(s)
    ensures n < 256 ==> |s| == 2
  {
    var d := HexNat(n);
    if |d| < 2 then "0" + d else d
  }

  lemma ToHexCons(b: Byte, rest: seq<Byte>)
    ensures ToHex([b] + rest) == ByteToHex(b) + ToHex(rest)
  {
    assert ([b] + rest)[1..] == rest;
  }

  lemma ToHexCons4(a: Byte, b: Byte, c: Byte, d: Byte)
    ensures ToHex([a, b, c, d]) == ByteToHex(a) + (ByteToHex(b) + (ByteToHex(c) + (ByteToHex(d) + "")))
  {
    var s: seq<Byte> := [a, b, c, d];
    assert ToHex([d]) == ByteToHex(d) + "" by { assert [d][1..] == []; }
    assert ToHex([c, d]) == ByteToHex(c) + ToHex([d]) by { assert [c, d][1..] == [d]; }
    assert ToHex([b, c, d]) == ByteToHex(b) + ToHex([c, d]) by { assert [b, c, d][1..] == [c, d]; }
    assert ToHex(s) == ByteToHex(a) + ToHex([b, c, d]) by { assert s[1..] == [b, c, d]; }
  }

  lemma ToHexPair(a: Byte, b: Byte)
    ensures ToHex([a, b]) == ByteToHex(a) + ByteToHex(b)
  {
    assert [a, b][1..] == [b] && [b][1..] == [];
  }

  lemma {:induction false} ToHexAppend(a: seq<Byte>, b: seq<Byte>)
    ensures ToHex(a + b) == ToHex(a) + ToHex(b)
  {
    if a != [] {
      assert (a + b)[0] == a[0] && (a + b)[1..] == a[1..] + b;
      ToHexAppend(a[1..], b);
      assert ToHex(a + b) == ByteToHex(a[0]) + ToHex(a[1..] + b);
    } else {
      assert a + b == b;
    }
  }

  /** Appending one byte appends its two digits. */
  lemma ToHexSnoc(bs: seq<Byte>, b: Byte)
    ensures ToHex(bs + [b]) == ToHex(bs) + ByteToHex(b)
  {
    ToHexAppend(bs, [b]);
    ToHexCons(b, []);
    assert [b] + [] == [b];
  }

  /** Decoding the hex text of any byte string gives the bytes back. */
  lemma {:induction false} FromHexToHex(bs: seq<Byte>)
    ensures FromHex(ToHex(bs)) == Some(bs)
  {
    if bs != [] {
      FromHexToHex(bs[1..]);
      FromHexCons(bs[0], ToHex(bs[1..]));
      assert [bs[0]] + bs[1..] == bs;
    }
  }

  /** Decoding one byte's two digits in front of some text. */
  lemma FromHexCons(b: Byte, s: string)
    ensures FromHex(ByteToHex(b) + s) == if FromHex(s).Some? then Some([b] + FromHex(s).value) else None
  {
    var h, l := HexDigit(b / 16), HexDigit(b % 16);
    var t := [h, l] + s;
    assert t[0] == h && t[1] == l && t[2..] == s;
    FromHexStep(t, b / 16, b % 16);
  }

  /** Decoding two digits in front of some text. */
  lemma FromHexStep(t: string, h: int, l: int)
    requires |t| >= 2 && DigitValue(t[0]) == Some(h) && DigitValue(t[1]) == Some(l)
    ensures FromHex(t) == if FromHex(t[2..]).Some? then Some([h * 16 + l] + FromHex(t[2..]).value) else None
  {
  }

  /** `fromhex` fails exactly on an odd length or a non-hexadecimal character. */
  lemma {:induction false} FromHexSucceeds(s: string)
    ensures FromHex(s).Some? <==> |s| % 2 == 0 && forall i | 0 <= i < |s| :: IsHexDigit(s[i])
    ensures FromHex(s).Some? ==> |FromHex(s).value| * 2 == |s|
    decreases |s|
  {
    if |s| >= 2 {
      FromHexSucceeds(s[2..]);
      assert forall i | 2 <= i < |s| :: s[i] == s[2..][i - 2];
    }
  }

  /** On lowercase text the round trip also holds the other way round. */
  lemma {:induction false} ToHexFromHex(s: string)
    requires IsLowerHex(s) && FromHex(s).Some?
    ensures ToHex(FromHex(s).value) == s
    decreases |s|
  {
    if |s| >= 2 {
      var tail := s[2..];
      assert IsLowerHex(tail) by {
        forall i | 0 <= i < |tail| ensures IsLowerHexDigit(tail[i]) {
          assert tail[i] == s[i + 2];
        }
      }
      var b := FromHexHead(s);
      ToHexFromHex(tail);
      LowerDigitUnique(s[0], HexDigit(b / 16));
      LowerDigitUnique(s[1], HexDigit(b % 16));
      assert ByteToHex(b) == [s[0], s[1]];
      assert ToHex([b] + FromHex(tail).value) == ByteToHex(b) + ToHex(FromHex(tail).value);
      assert s == [s[0], s[1]] + tail;
    }
  }

  /** One step of `fromhex`: the first two digits give the first byte. */
  lemma FromHexHead(s: string) returns (b: Byte)
    requires |s| >= 2 && FromHex(s).Some?
    ensures FromHex(s[2..]).Some? && FromHex(s).value == [b] + FromHex(s[2..]).value
    ensures DigitValue(s[0]) == Some(b / 16) && DigitValue(s[1]) == Some(b % 16)
  {
    var h, l := DigitValue(s[0]).value, DigitValue(s[1]).value;
    assert FromHex(s[2..]).Some?;
    b := h * 16 + l;
    assert FromHex(s).value == [b] + FromHex(s[2..]).value;
  }

  lemma LowerDigitUnique(c: char, d: char)
    requires IsLowerHexDigit(c) && IsLowerHexDigit(d) && DigitValue(c) == DigitValue(d)
    ensures c == d
  {
  }

  /** Below 256, `f'{n:02x}'` writes exactly the two digits `bytes.hex()` would. */
  lemma Format02xOfByte(n: nat)
    requires n < 256
    ensures Format02x(n) == ByteToHex(n)
  {
    if n >= 16 {
      assert HexNat(n / 16) == [HexDigit(n / 16)];
    }
  }

  /** From 256 on, `f'{n:02x}'` writes three or more digits. */
  lemma {:induction false} Format02xWide(n: nat)
    requires n >= 256
    ensures |Format02x(n)| >= 3
  {
    assert n / 16 >= 16;
    assert |HexNat(n / 16)| >= 2;
  }
}
