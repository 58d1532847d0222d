/**
 * The command encoder of the light's UDP protocol: the XOR checksum, the
 * computed brightness/temperature frame and the handshake that announces the
 * host's dotted-quad address.
 */
module Frames {
  import opened Wrappers
  import opened Hex

  /** Bitwise exclusive or of two naturals, lowest bit first (Python's `^`). */
  function Xor(a: nat, b: nat): nat
    decreases a + b
  {
    if a == 0 then b
    else if b == 0 then a
    else 2 * Xor(a / 2, b / 2) + (if a % 2 != b % 2 then 1 else 0)
  }

  /** The recursive equation also holds when one operand is zero. */
  lemma XorUnfold(a: nat, b: nat)
    ensures Xor(a, b) == 2 * Xor(a / 2, b / 2) + (if a % 2 != b % 2 then 1 else 0)
  {
  }

  lemma HalfAndParity(q: nat, r: nat)
    requires r < 2
    ensures (2 * q + r) / 2 == q && (2 * q + r) % 2 == r
  {
  }

  lemma XorZero(a: nat)
    ensures Xor(a, 0) == a && Xor(0, a) == a
  {
  }

  lemma {:induction false} XorSelf(a: nat)
    ensures Xor(a, a) == 0
    decreases a
  {
    if a > 0 {
      XorSelf(a / 2);
    }
  }

  lemma {:induction false} XorAssociative(a: nat, b: nat, c: nat)
    ensures Xor(Xor(a, b), c) == Xor(a, Xor(b, c))
    decreases a + b + c
  {
    if a + b + c > 0 {
      var x, y := Xor(a, b), Xor(b, c);
      XorUnfold(a, b);
      XorUnfold(b, c);
      HalfAndParity(Xor(a / 2, b / 2), if a % 2 != b % 2 then 1 else 0);
      HalfAndParity(Xor(b / 2, c / 2), if b % 2 != c % 2 then 1 else 0);
      assert x / 2 == Xor(a / 2, b / 2) && y / 2 == Xor(b / 2, c / 2);
      XorUnfold(x, c);
      XorUnfold(a, y);
      XorAssociative(a / 2, b / 2, c / 2);
    }
  }

  /** Two bytes XOR to a byte. */
  lemma {:induction false} XorBound(a: nat, b: nat, limit: nat)
    requires limit == 1 || limit == 2 || limit == 4 || limit == 8 || limit == 16
          || limit == 32 || limit == 64 || limit == 128 || limit == 256
    requires a < limit && b < limit
    ensures Xor(a, b) < limit
    decreases limit
  {
    if limit > 1 {
      XorUnfold(a, b);
      XorBound(a / 2, b / 2, limit / 2);
    }
  }

  /** `x ^ c == 0` exactly when `c == x`: the checksum byte is determined. */
  lemma XorCancels(x: nat, c: nat)
    ensures Xor(x, c) == 0 <==> c == x
  {
    XorSelf(x);
    XorAssociative(x, x, c);
    XorZero(c);
    XorZero(x);
  }

  /** The byte `a ^ b`. */
  function XorByte(a: Byte, b: Byte): (r: Byte)
    ensures r == Xor(a, b)
  {
    XorBound(a, b, 256);
    Xor(a, b)
  }

  /** XOR of all bytes, folded from the left starting at 0 (`calculate_checksum`). */
  function XorFold(s: seq<Byte>): Byte {
    if |s| == 0 then 0 else XorByte(XorFold(s[..|s| - 1]), s[|s| - 1])
  }

  lemma {:induction false} XorFoldAppend(a: seq<Byte>, b: seq<Byte>)
    ensures XorFold(a + b) == Xor(XorFold(a), XorFold(b))
  {
    if b == [] {
      assert a + b == a;
      XorZero(XorFold(a));
    } else {
      var c := a + b;
      assert c[..|c| - 1] == a + b[..|b| - 1];
      XorFoldAppend(a, b[..|b| - 1]);
      XorAssociative(XorFold(a), XorFold(b[..|b| - 1]), b[|b| - 1]);
    }
  }

  /** Appending a frame's checksum makes the XOR of the whole frame zero. */
  lemma XorFoldWithChecksum(s: seq<Byte>)
    ensures XorFold(s + [XorFold(s)]) == 0
  {
    assert (s + [XorFold(s)])[..|s|] == s;
    XorSelf(XorFold(s));
  }

  /** The fixed header of the set-brightness-and-temperature command. */
  const BrightnessTemperatureHeader: seq<Byte> := [0x80, 0x05, 0x03, 0x02]

  /** `80 05 03 02 b t c` where `c` is the XOR of the six bytes before it. */
  function BrightnessTemperatureFrame(brightness: Byte, temperature: Byte): seq<Byte> {
    var data := BrightnessTemperatureHeader + [brightness, temperature];
    data + [XorFold(data)]
  }

  lemma BrightnessTemperatureFrameLayout(brightness: Byte, temperature: Byte)
    ensures var f := BrightnessTemperatureFrame(brightness, temperature);
      |f| == 7 && f[..4] == BrightnessTemperatureHeader && f[4] == brightness && f[5] == temperature
      && f[6] == XorFold(f[..6]) && XorFold(f) == 0
  {
    var data := BrightnessTemperatureHeader + [brightness, temperature];
    XorFoldWithChecksum(data);
    assert BrightnessTemperatureFrame(brightness, temperature)[..6] == data;
  }

  /**
   * A datagram is a brightness/temperature frame exactly when it has seven
   * bytes, the fixed header, and XOR zero: the checksum determines the frame.
   */
  lemma BrightnessTemperatureFrameCharacterized(f: seq<Byte>)
    ensures (exists b, t :: f == BrightnessTemperatureFrame(b, t))
        <==> |f| == 7 && f[..4] == BrightnessTemperatureHeader && XorFold(f) == 0
  {
    if exists b, t :: f == BrightnessTemperatureFrame(b, t) {
      var b, t :| f == BrightnessTemperatureFrame(b, t);
      BrightnessTemperatureFrameLayout(b, t);
    }
    if |f| == 7 && f[..4] == BrightnessTemperatureHeader && XorFold(f) == 0 {
      ZeroXorFrameIsFrame(f);
    }
  }

  /** A seven-byte datagram with the header and XOR zero is the frame of its payload. */
  lemma ZeroXorFrameIsFrame(f: seq<Byte>)
    requires |f| == 7 && f[..4] == BrightnessTemperatureHeader && XorFold(f) == 0
    ensures f == BrightnessTemperatureFrame(f[4], f[5])
  {
    var data := f[..6];
    assert f[..|f| - 1] == data;
    XorCancels(XorFold(data), f[6]);
    assert data == BrightnessTemperatureHeader + [f[4], f[5]];
    assert f == data + [f[6]];
  }

  /** The frame's hex text is 14 lowercase digits and decodes back to the frame. */
  lemma BrightnessTemperatureFrameHex(brightness: Byte, temperature: Byte)
    ensures var f := BrightnessTemperatureFrame(brightness, temperature);
      |ToHex(f)| == 14 && IsLowerHex(ToHex(f)) && FromHex(ToHex(f)) == Some(f)
  {
    BrightnessTemperatureFrameLayout(brightness, temperature);
    ToHexIsLower(BrightnessTemperatureFrame(brightness, temperature));
    FromHexToHex(BrightnessTemperatureFrame(brightness, temperature));
  }

  /** Appending one byte XORs it into the fold. */
  lemma XorFoldSnoc(s: seq<Byte>, x: Byte)
    ensures XorFold(s + [x]) == Xor(XorFold(s), x)
  {
    assert (s + [x])[..|s|] == s;
  }

  /** The fold of six bytes, spelled out. */
  lemma XorFoldOfSix(a: Byte, b: Byte, c: Byte, d: Byte, e: Byte, f: Byte)
    ensures XorFold([a, b, c, d, e, f]) == Xor(Xor(Xor(Xor(Xor(a, b), c), d), e), f)
  {
    XorZero(a);
    XorFoldSnoc([], a);
    XorFoldSnoc([a], b);
    XorFoldSnoc([a, b], c);
    XorFoldSnoc([a, b, c], d);
    XorFoldSnoc([a, b, c, d], e);
    XorFoldSnoc([a, b, c, d, e], f);
    assert [] + [a] == [a];
    assert [a] + [b] == [a, b];
    assert [a, b] + [c] == [a, b, c];
    assert [a, b, c] + [d] == [a, b, c, d];
    assert [a, b, c, d] + [e] == [a, b, c, d, e];
    assert [a, b, c, d, e] + [f] == [a, b, c, d, e, f];
  }

  // The running XOR of the example frame `80 05 03 02 64 32`, one byte at a time.
  lemma XorExample1() ensures Xor(0x80, 0x05) == 0x85 {
    assert Xor(32, 1) == 33;
    assert Xor(64, 2) == 66;
  }
  lemma XorExample2() ensures Xor(0x85, 0x03) == 0x86 {
    assert Xor(66, 1) == 67;
  }
  lemma XorExample3() ensures Xor(0x86, 0x02) == 0x84 {
    assert Xor(67, 1) == 66;
  }
  lemma XorExample4() ensures Xor(0x84, 0x64) == 0xe0 {
    assert Xor(2, 1) == 3;
    assert Xor(4, 3) == 7;
    assert Xor(8, 6) == 14;
    assert Xor(16, 12) == 28;
    assert Xor(33, 25) == 56;
    assert Xor(66, 50) == 112;
  }
  lemma XorExample5() ensures Xor(0xe0, 0x32) == 0xd2 {
    assert Xor(7, 1) == 6;
    assert Xor(14, 3) == 13;
    assert Xor(28, 6) == 26;
    assert Xor(56, 12) == 52;
    assert Xor(112, 25) == 105;
  }

  /** The checksum of `80 05 03 02 64 32` is `d2`. */
  lemma ChecksumExample()
    ensures XorFold([0x80, 0x05, 0x03, 0x02, 0x64, 0x32]) == 0xd2
  {
    XorFoldOfSix(0x80, 0x05, 0x03, 0x02, 0x64, 0x32);
    XorExample1();
    XorExample2();
    XorExample3();
    XorExample4();
    XorExample5();
  }

  /** The frame as a list of seven bytes. */
  lemma BrightnessTemperatureFrameBytes(brightness: Byte, temperature: Byte)
    ensures BrightnessTemperatureFrame(brightness, temperature)
         == [0x80, 0x05, 0x03, 0x02, brightness, temperature, XorFold([0x80, 0x05, 0x03, 0x02, brightness, temperature])]
  {
    assert BrightnessTemperatureHeader + [brightness, temperature] == [0x80, 0x05, 0x03, 0x02, brightness, temperature];
  }

  /** The header's text is the eight digits `80050302`. */
  lemma BrightnessTemperatureHeaderHex()
    ensures ToHex(BrightnessTemperatureHeader) == "80050302"
  {
    ToHexCons4(0x80, 0x05, 0x03, 0x02);
    assert ByteToHex(0x80) == "80" && ByteToHex(0x05) == "05";
    assert ByteToHex(0x03) == "03" && ByteToHex(0x02) == "02";
  }

  /** The frame's text: the header's eight digits, then two digits per payload byte and checksum. */
  lemma BrightnessTemperatureFrameText(brightness: Byte, temperature: Byte)
    ensures ToHex(BrightnessTemperatureFrame(brightness, temperature))
         == "80050302" + ByteToHex(brightness) + ByteToHex(temperature)
            + ByteToHex(XorFold(BrightnessTemperatureHeader + [brightness, temperature]))
  {
    var c := XorFold(BrightnessTemperatureHeader + [brightness, temperature]);
    var h := BrightnessTemperatureHeader;
    BrightnessTemperatureHeaderHex();
    ToHexCons(c, []);
    ToHexCons(temperature, [c]);
    ToHexCons(brightness, [temperature, c]);
    assert [temperature] + [c] == [temperature, c];
    assert [brightness] + [temperature, c] == [brightness, temperature, c];
    ToHexAppend(h, [brightness, temperature, c]);
    assert BrightnessTemperatureFrame(brightness, temperature) == h + [brightness, temperature, c];
  }

  /** Brightness 100 and temperature 50 give the datagram `80 05 03 02 64 32 d2`. */
  lemma BrightnessTemperatureFrameExample()
    ensures BrightnessTemperatureFrame(100, 50) == [0x80, 0x05, 0x03, 0x02, 0x64, 0x32, 0xd2]
  {
    ChecksumExample();
    BrightnessTemperatureFrameBytes(100, 50);
  }

  /** ... whose text is `800503026432d2`. */
  lemma BrightnessTemperatureFrameTextExample()
    ensures ToHex(BrightnessTemperatureFrame(100, 50)) == "800503026432d2"
  {
    ChecksumExample();
    ExampleDigits();
    assert BrightnessTemperatureHeader + [100, 50] == [0x80, 0x05, 0x03, 0x02, 0x64, 0x32];
    FrameTextOfDigits(100, 50, 0xd2);
  }

  lemma ExampleDigits()
    ensures ByteToHex(100) == "64" && ByteToHex(50) == "32" && ByteToHex(0xd2) == "d2"
  {
  }

  /** The frame text of a payload and checksum whose digits are those of the example. */
  lemma FrameTextOfDigits(b: Byte, t: Byte, c: Byte)
    requires XorFold(BrightnessTemperatureHeader + [b, t]) == c
    requires ByteToHex(b) == "64" && ByteToHex(t) == "32" && ByteToHex(c) == "d2"
    ensures ToHex(BrightnessTemperatureFrame(b, t)) == "800503026432d2"
  {
    BrightnessTemperatureFrameText(b, t);
  }

  // ---- Handshake ----

  const HandshakePrefix: string := "80021000000d"
  const HandshakeSuffix: string := "2e"

  /** Python's `str.split(sep)`: the pieces between separators, always at least one. */
  function Split(s: string, sep: char): (parts: seq<string>)
    ensures |parts| >= 1
  {
    if |s| == 0 then [""]
    else
      var rest := Split(s[1..], sep);
      if s[0] == sep then [""] + rest else [[s[0]] + rest[0]] + rest[1..]
  }

  /** No piece of `parts` contains `sep`. */
  ghost predicate PiecesLack(parts: seq<string>, sep: char) {
    forall i, j | 0 <= i < |parts| && 0 <= j < |parts[i]| :: parts[i][j] != sep
  }

  /** No piece of a split contains the separator. */
  lemma {:induction false} SplitPartsLackSeparator(s: string, sep: char)
    ensures PiecesLack(Split(s, sep), sep)
  {
    if |s| > 0 {
      SplitPartsLackSeparator(s[1..], sep);
      var rest := Split(s[1..], sep);
      var parts := Split(s, sep);
      assert PiecesLack(rest, sep);
      forall i, j | 0 <= i < |parts| && 0 <= j < |parts[i]| ensures parts[i][j] != sep {
        if s[0] == sep {
          assert parts == [""] + rest;
          assert parts[i] == rest[i - 1];
          assert rest[i - 1][j] != sep;
        } else {
          assert parts == [[s[0]] + rest[0]] + rest[1..];
          if i == 0 {
            if j > 0 {
              assert parts[0][j] == rest[0][j - 1];
              assert rest[0][j - 1] != sep;
            }
          } else {
            assert parts[i] == rest[i];
            assert rest[i][j] != sep;
          }
        }
      }
    }
  }

  /** Python's `sep.join(parts)`, the inverse of `Split`. */
  function Join(parts: seq<string>, sep: char): string
    requires |parts| >= 1
  {
    if |parts| == 1 then parts[0] else parts[0] + [sep] + Join(parts[1..], sep)
  }

  lemma {:induction false} JoinSplit(s: string, sep: char)
    ensures Join(Split(s, sep), sep) == s
  {
    if |s| > 0 {
      JoinSplit(s[1..], sep);
      var rest := Split(s[1..], sep);
      if s[0] == sep {
        assert ([""] + rest)[1..] == rest;
      } else {
        var parts := [[s[0]] + rest[0]] + rest[1..];
        if |rest| > 1 {
          assert parts[1..] == rest[1..];
        }
      }
    }
  }

  /** A piece with no separator followed by the separator splits off as one part. */
  lemma {:induction false} SplitPrefix(a: string, b: string, sep: char)
    requires forall i | 0 <= i < |a| :: a[i] != sep
    ensures Split(a + ([sep] + b), sep) == [a] + Split(b, sep)
  {
    if |a| > 0 {
      assert (a + ([sep] + b))[1..] == a[1..] + ([sep] + b);
      SplitPrefix(a[1..], b, sep);
      assert [a[0]] + a[1..] == a;
    } else {
      assert (a + ([sep] + b))[1..] == b;
    }
  }

  predicate IsDecimalDigit(c: char) { '0' <= c <= '9' }

  predicate IsDecimal(s: string) {
    |s| >= 1 && forall i | 0 <= i < |s| :: IsDecimalDigit(s[i])
  }

  function DecimalValue(s: string): nat
    requires IsDecimal(s)
  {
    var d := s[|s| - 1] as int - '0' as int;
    if |s| == 1 then d else DecimalValue(s[..|s| - 1]) * 10 + d
  }

  /**
   * `int(part)` on one piece of the host: the value of a decimal numeral;
   * `None` stands for the `ValueError` raised on anything else.
   */
  function ParseDecimal(s: string): Option<nat> {
    if IsDecimal(s) then Some(DecimalValue(s)) else None
  }

  /** Python's `str(n)` for `n >= 0`. */
  function ToDecimal(n: nat): (s: string)
    ensures IsDecimal(s)
  {
    var d := ['0' + (n % 10) as char];
    if n < 10 then d else ToDecimal(n / 10) + d
  }

  lemma {:induction false} ParseToDecimal(n: nat)
    ensures ParseDecimal(ToDecimal(n)) == Some(n)
  {
    if n >= 10 {
      ParseToDecimal(n / 10);
      var s := ToDecimal(n);
      assert s[..|s| - 1] == ToDecimal(n / 10);
    }
  }

  /** `''.join(f'{int(p):02x}' for p in parts)`; `None` if some `int` call raises. */
  function OctetsHex(parts: seq<string>): (r: Option<string>)
    ensures r.Some? ==> 2 * |parts| <= |r.value| && IsLowerHex(r.value)
  {
    if parts == [] then Some("")
    else
      match (ParseDecimal(parts[0]), OctetsHex(parts[1..]))
      case (Some(n), Some(rest)) => Some(Format02x(n) + rest)
      case _ => None
  }

  /** The handshake text `80021000000d` + the host's parts in hex + `2e`. */
  function HandshakeHex(host: string): Option<string> {
    match OctetsHex(Split(host, '.'))
    case Some(ip) => Some(HandshakePrefix + ip + HandshakeSuffix)
    case None => None
  }

  /** The handshake datagram: the handshake text decoded by `fromhex`. */
  function HandshakeFrame(host: string): Option<seq<Byte>> {
    match HandshakeHex(host)
    case Some(h) => FromHex(h)
    case None => None
  }

  /** The address `a.b.c.d` as a string. */
  function DottedQuad(a: nat, b: nat, c: nat, d: nat): string {
    ToDecimal(a) + ("." + (ToDecimal(b) + ("." + (ToDecimal(c) + ("." + ToDecimal(d))))))
  }

  lemma NoDotInDecimal(s: string)
    requires IsDecimal(s)
    ensures forall i | 0 <= i < |s| :: s[i] != '.'
  {
  }

  /** A string without the separator splits into itself alone. */
  lemma {:induction false} SplitWithoutSeparator(s: string, sep: char)
    requires forall i | 0 <= i < |s| :: s[i] != sep
    ensures Split(s, sep) == [s]
  {
    if |s| > 0 {
      SplitWithoutSeparator(s[1..], sep);
      assert [s[0]] + s[1..] == s;
    }
  }

  /** Four pieces without dots joined by dots split back into the four. */
  lemma SplitFour(sa: string, sb: string, sc: string, sd: string)
    requires forall i | 0 <= i < |sa| :: sa[i] != '.'
    requires forall i | 0 <= i < |sb| :: sb[i] != '.'
    requires forall i | 0 <= i < |sc| :: sc[i] != '.'
    requires forall i | 0 <= i < |sd| :: sd[i] != '.'
    ensures Split(sa + ("." + (sb + ("." + (sc + ("." + sd))))), '.') == [sa, sb, sc, sd]
  {
    SplitWithoutSeparator(sd, '.');
    SplitPrefix(sc, sd, '.');
    SplitPrefix(sb, sc + ("." + sd), '.');
    SplitPrefix(sa, sb + ("." + (sc + ("." + sd))), '.');
    assert [sa] + ([sb] + ([sc] + [sd])) == [sa, sb, sc, sd];
  }

  /** A dotted quad of numerals splits into its four numerals. */
  lemma SplitDottedQuad(a: nat, b: nat, c: nat, d: nat)
    ensures Split(DottedQuad(a, b, c, d), '.') == [ToDecimal(a), ToDecimal(b), ToDecimal(c), ToDecimal(d)]
  {
    NoDotInDecimal(ToDecimal(a));
    NoDotInDecimal(ToDecimal(b));
    NoDotInDecimal(ToDecimal(c));
    NoDotInDecimal(ToDecimal(d));
    SplitFour(ToDecimal(a), ToDecimal(b), ToDecimal(c), ToDecimal(d));
  }

  /**
   * One host part that `int` reads as a value in 0..255 (leading zeros
   * included), in front of the other parts, adds that value's two hex digits.
   */
  lemma OctetsHexStep(part: string, n: nat, rest: seq<string>)
    requires ParseDecimal(part) == Some(n) && n < 256
    ensures OctetsHex([part] + rest)
         == if OctetsHex(rest).Some? then Some(ByteToHex(n) + OctetsHex(rest).value) else None
  {
    assert ([part] + rest)[1..] == rest;
    Format02xOfByte(n);
  }

  /** Each host part is a numeral that `int` reads as the matching octet. */
  ghost predicate PartsAreOctets(parts: seq<string>, octets: seq<Byte>) {
    |parts| == |octets| && forall i | 0 <= i < |parts| :: ParseDecimal(parts[i]) == Some(octets[i] as nat)
  }

  /** Parts that read as octets join to the `hex` text of those octets, however many there are. */
  lemma {:induction false} OctetsHexOfParts(parts: seq<string>, octets: seq<Byte>)
    requires PartsAreOctets(parts, octets)
    ensures OctetsHex(parts) == Some(ToHex(octets))
  {
    if parts != [] {
      assert PartsAreOctets(parts[1..], octets[1..]) by {
        forall i | 0 <= i < |parts| - 1 ensures ParseDecimal(parts[1..][i]) == Some(octets[1..][i] as nat) {
          assert parts[1..][i] == parts[i + 1] && octets[1..][i] == octets[i + 1];
        }
      }
      OctetsHexOfParts(parts[1..], octets[1..]);
      assert [parts[0]] + parts[1..] == parts;
      OctetsHexStep(parts[0], octets[0], parts[1..]);
      assert [octets[0]] + octets[1..] == octets;
      ToHexCons(octets[0], octets[1..]);
    }
  }

  /** A part `int` rejects makes the whole join fail. */
  lemma {:induction false} OctetsHexRejects(parts: seq<string>, k: nat)
    requires k < |parts| && ParseDecimal(parts[k]).None?
    ensures OctetsHex(parts).None?
  {
    if k > 0 {
      assert parts[1..][k - 1] == parts[k];
      OctetsHexRejects(parts[1..], k - 1);
    }
  }

  /**
   * A host whose `.`-separated parts `int` reads as octets, with or without
   * leading zeros and however many parts there are: the handshake is the
   * prefix, each octet as two hex digits and the suffix, and decodes to the
   * prefix bytes, the octets and `2e`.
   */
  lemma HandshakeOfParts(host: string, octets: seq<Byte>)
    requires PartsAreOctets(Split(host, '.'), octets)
    ensures HandshakeHex(host) == Some(HandshakePrefix + ToHex(octets) + HandshakeSuffix)
    ensures HandshakeFrame(host) == Some(HandshakePrefixBytes + octets + HandshakeSuffixBytes)
  {
    OctetsHexOfParts(Split(host, '.'), octets);
    HandshakeTextDecodes(octets);
  }

  /** A host with a part `int` rejects has no handshake: `connect` fails before sending. */
  lemma HandshakeRejects(host: string, k: nat)
    requires k < |Split(host, '.')| && ParseDecimal(Split(host, '.')[k]).None?
    ensures HandshakeHex(host).None? && HandshakeFrame(host).None?
  {
    OctetsHexRejects(Split(host, '.'), k);
  }

  /** `int` reads `010` as 10, though `str(10)` is `10`: parts need not be canonical numerals. */
  lemma LeadingZeroPart()
    ensures ParseDecimal("010") == Some(10) && ToDecimal(10) == "10"
  {
    assert "010"[..2] == "01" && "01"[..1] == "0";
  }

  /** Four numerals in 0..255 give the four octets' hex digits. */
  lemma OctetsHexOfFour(a: nat, b: nat, c: nat, d: nat)
    requires a < 256 && b < 256 && c < 256 && d < 256
    ensures OctetsHex([ToDecimal(a), ToDecimal(b), ToDecimal(c), ToDecimal(d)])
         == Some(ToHex([a, b, c, d]))
  {
    ParseToDecimal(a);
    ParseToDecimal(b);
    ParseToDecimal(c);
    ParseToDecimal(d);
    OctetsHexStep(ToDecimal(d), d, []);
    OctetsHexStep(ToDecimal(c), c, [ToDecimal(d)]);
    OctetsHexStep(ToDecimal(b), b, [ToDecimal(c), ToDecimal(d)]);
    OctetsHexStep(ToDecimal(a), a, [ToDecimal(b), ToDecimal(c), ToDecimal(d)]);
    assert [ToDecimal(a)] + [ToDecimal(b), ToDecimal(c), ToDecimal(d)]
        == [ToDecimal(a), ToDecimal(b), ToDecimal(c), ToDecimal(d)];
    assert [ToDecimal(b)] + [ToDecimal(c), ToDecimal(d)] == [ToDecimal(b), ToDecimal(c), ToDecimal(d)];
    assert [ToDecimal(c)] + [ToDecimal(d)] == [ToDecimal(c), ToDecimal(d)];
    assert [ToDecimal(d)] + [] == [ToDecimal(d)];
    ToHexCons4(a, b, c, d);
  }

  const HandshakePrefixBytes: seq<Byte> := [0x80, 0x02, 0x10, 0x00, 0x00, 0x0d]
  const HandshakeSuffixBytes: seq<Byte> := [0x2e]

  lemma HandshakeAffixesHex()
    ensures HandshakePrefix == ToHex(HandshakePrefixBytes) && HandshakeSuffix == ToHex(HandshakeSuffixBytes)
  {
    var p := HandshakePrefixBytes;
    assert p[1..][1..][1..][1..][1..][1..] == [];
  }

  /** Prefix, octets and suffix in hex decode to the handshake bytes around the octets. */
  lemma HandshakeTextDecodes(octets: seq<Byte>)
    ensures FromHex(HandshakePrefix + ToHex(octets) + HandshakeSuffix)
         == Some(HandshakePrefixBytes + octets + HandshakeSuffixBytes)
  {
    HandshakeAffixesHex();
    ToHexAppend(HandshakePrefixBytes, octets);
    ToHexAppend(HandshakePrefixBytes + octets, HandshakeSuffixBytes);
    FromHexToHex(HandshakePrefixBytes + octets + HandshakeSuffixBytes);
  }

  /**
   * For an address of four numerals in 0..255 the handshake is the prefix, the
   * four octets as two hex digits each and the suffix, and it decodes to the
   * eleven bytes `80 02 10 00 00 0d a b c d 2e`.
   */
  lemma HandshakeOfDottedQuad(a: nat, b: nat, c: nat, d: nat)
    requires a < 256 && b < 256 && c < 256 && d < 256
    ensures HandshakeHex(DottedQuad(a, b, c, d))
         == Some(HandshakePrefix + ToHex([a, b, c, d]) + HandshakeSuffix)
    ensures HandshakeFrame(DottedQuad(a, b, c, d))
         == Some([0x80, 0x02, 0x10, 0x00, 0x00, 0x0d, a, b, c, d, 0x2e])
  {
    SplitDottedQuad(a, b, c, d);
    OctetsHexOfFour(a, b, c, d);
    var octets: seq<Byte> := [a, b, c, d];
    HandshakeTextDecodes(octets);
    assert HandshakePrefixBytes + octets + HandshakeSuffixBytes
        == [0x80, 0x02, 0x10, 0x00, 0x00, 0x0d, a, b, c, d, 0x2e];
  }

  lemma DottedQuadExample()
    ensures DottedQuad(192, 168, 1, 100) == "192.168.1.100"
  {
    assert ToDecimal(1) == "1";
    assert ToDecimal(19) == "19";
    assert ToDecimal(192) == "192";
    assert ToDecimal(16) == "16";
    assert ToDecimal(168) == "168";
    assert ToDecimal(10) == "10";
    assert ToDecimal(100) == "100";
  }

  lemma OctetsExample()
    ensures ToHex([192, 168, 1, 100]) == "c0a80164"
  {
    ToHexCons4(192, 168, 1, 100);
  }

  /** `192.168.1.100` gives the handshake `80021000000dc0a801642e`. */
  lemma HandshakeExample()
    ensures HandshakeHex("192.168.1.100") == Some("80021000000dc0a801642e")
  {
    DottedQuadExample();
    OctetsExample();
    assert HandshakePrefix + "c0a80164" + HandshakeSuffix == "80021000000dc0a801642e";
    HandshakeOfHost("192.168.1.100", "c0a80164", 192, 168, 1, 100);
  }

  lemma HandshakeOfHost(host: string, octets: string, a: nat, b: nat, c: nat, d: nat)
    requires a < 256 && b < 256 && c < 256 && d < 256
    requires host == DottedQuad(a, b, c, d) && ToHex([a, b, c, d]) == octets
    ensures HandshakeHex(host) == Some(HandshakePrefix + octets + HandshakeSuffix)
  {
    HandshakeOfDottedQuad(a, b, c, d);
  }
}
