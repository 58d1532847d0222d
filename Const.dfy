/**
 * The integration's constants: its domain, default name and port, the fixed
 * command frames of the light's protocol (as hex text), and the colour
 * temperature and brightness ranges of the device.
 */
module Const {
  import opened Wrappers
  import opened Hex
  import Frames

  const DOMAIN: string := "neewer_gl25c"
  const DEFAULT_NAME: string := "Neewer GL25C"
  const DEFAULT_PORT: int := 5052

  const COMMAND_POWER_ON: string := "800502010189"
  const COMMAND_POWER_OFF: string := "800502010088"
  const COMMAND_QUERY_POWER: string := "8004020106"

  const MIN_KELVIN: int := 2900
  const MAX_KELVIN: int := 7000

  const MIN_BRIGHTNESS: int := 0
  const MAX_BRIGHTNESS: int := 100

  const PowerOnBytes: seq<Byte> := [0x80, 0x05, 0x02, 0x01, 0x01, 0x89]
  const PowerOffBytes: seq<Byte> := [0x80, 0x05, 0x02, 0x01, 0x00, 0x88]
  const QueryPowerBytes: seq<Byte> := [0x80, 0x04, 0x02, 0x01, 0x06]

  /** Sum of the bytes, as an integer. */
  function ByteSum(s: seq<Byte>): nat {
    if s == [] then 0 else s[0] + ByteSum(s[1..])
  }

  /** The text of six bytes, two digits each. */
  lemma ToHexSix(s: seq<Byte>)
    requires |s| == 6
    ensures ToHex(s) == ByteToHex(s[0]) + ByteToHex(s[1]) + ByteToHex(s[2]) + ByteToHex(s[3])
                        + ByteToHex(s[4]) + ByteToHex(s[5])
  {
    ToHexCons4(s[0], s[1], s[2], s[3]);
    ToHexPair(s[4], s[5]);
    assert s == [s[0], s[1], s[2], s[3]] + [s[4], s[5]];
    ToHexAppend([s[0], s[1], s[2], s[3]], [s[4], s[5]]);
  }

  /** Six bytes whose digits spell a text: the text is their hex. */
  lemma SixBytesSpell(bs: seq<Byte>, text: string)
    requires |bs| == 6
    requires text == ByteToHex(bs[0]) + ByteToHex(bs[1]) + ByteToHex(bs[2]) + ByteToHex(bs[3])
                     + ByteToHex(bs[4]) + ByteToHex(bs[5])
    ensures text == ToHex(bs)
  {
    ToHexSix(bs);
  }

  /** `COMMAND_POWER_ON` is the text of `80 05 02 01 01 89`. */
  lemma PowerOnIsText()
    ensures COMMAND_POWER_ON == ToHex(PowerOnBytes)
  {
    assert ByteToHex(0x80) == "80" && ByteToHex(0x05) == "05" && ByteToHex(0x02) == "02";
    assert ByteToHex(0x01) == "01" && ByteToHex(0x89) == "89";
    SixBytesSpell(PowerOnBytes, COMMAND_POWER_ON);
  }

  /** `fromhex` turns `COMMAND_POWER_ON` into those bytes. */
  lemma PowerOnDecodes()
    ensures FromHex(COMMAND_POWER_ON) == Some(PowerOnBytes)
  {
    PowerOnIsText();
    FromHexToHex(PowerOnBytes);
  }

  /** `COMMAND_POWER_OFF` is the text of `80 05 02 01 00 88`. */
  lemma PowerOffIsText()
    ensures COMMAND_POWER_OFF == ToHex(PowerOffBytes)
  {
    assert ByteToHex(0x80) == "80" && ByteToHex(0x05) == "05" && ByteToHex(0x02) == "02";
    assert ByteToHex(0x01) == "01" && ByteToHex(0x00) == "00" && ByteToHex(0x88) == "88";
    SixBytesSpell(PowerOffBytes, COMMAND_POWER_OFF);
  }

  /** `fromhex` turns `COMMAND_POWER_OFF` into those bytes. */
  lemma PowerOffDecodes()
    ensures FromHex(COMMAND_POWER_OFF) == Some(PowerOffBytes)
  {
    PowerOffIsText();
    FromHexToHex(PowerOffBytes);
  }

  /** `COMMAND_QUERY_POWER` is the text of `80 04 02 01 06`. */
  lemma QueryPowerIsText()
    ensures COMMAND_QUERY_POWER == ToHex(QueryPowerBytes)
  {
    ToHexCons4(0x80, 0x04, 0x02, 0x01);
    ToHexCons(0x06, []);
    ToHexAppend([0x80, 0x04, 0x02, 0x01], [0x06]);
    assert [0x80, 0x04, 0x02, 0x01] + [0x06] == QueryPowerBytes;
    assert ByteToHex(0x80) == "80" && ByteToHex(0x04) == "04" && ByteToHex(0x02) == "02";
    assert ByteToHex(0x01) == "01" && ByteToHex(0x06) == "06";
  }

  /** `fromhex` turns `COMMAND_QUERY_POWER` into those bytes. */
  lemma QueryPowerDecodes()
    ensures FromHex(COMMAND_QUERY_POWER) == Some(QueryPowerBytes)
  {
    QueryPowerIsText();
    FromHexToHex(QueryPowerBytes);
  }

  /** The two power frames differ only in their last two bytes (the fifth and sixth). */
  lemma PowerFramesDiffer()
    ensures |PowerOnBytes| == |PowerOffBytes| == 6
    ensures PowerOnBytes[..4] == PowerOffBytes[..4]
    ensures PowerOnBytes[4] != PowerOffBytes[4] && PowerOnBytes[5] != PowerOffBytes[5]
  {
  }

  /**
   * The last byte of each power frame is the sum of the others modulo 256; it
   * is NOT their XOR, so these frames do not follow `calculate_checksum`.
   */
  lemma PowerFramesUseSumNotXor()
    ensures PowerOnBytes[5] == ByteSum(PowerOnBytes[..5]) % 256 == 0x89
    ensures PowerOffBytes[5] == ByteSum(PowerOffBytes[..5]) % 256 == 0x88
    ensures Frames.XorFold(PowerOnBytes[..5]) == 0x87 != PowerOnBytes[5]
    ensures Frames.XorFold(PowerOffBytes[..5]) == 0x86 != PowerOffBytes[5]
  {
    PowerPrefixSums();
    PowerPrefixXors();
  }

  lemma PowerPrefixSums()
    ensures ByteSum(PowerOnBytes[..5]) == 0x89 && ByteSum(PowerOffBytes[..5]) == 0x88
  {
    ByteSumOfFive(PowerOnBytes[..5]);
    ByteSumOfFive(PowerOffBytes[..5]);
  }

  lemma ByteSumOfFive(s: seq<Byte>)
    requires |s| == 5
    ensures ByteSum(s) == s[0] as int + s[1] + s[2] + s[3] + s[4]
  {
    assert s[1..][1..][1..][1..][1..] == [];
    assert ByteSum(s[4..]) == s[4] by { assert s[4..][1..] == []; }
    assert ByteSum(s[3..]) == s[3] as int + s[4] by { assert s[3..][1..] == s[4..]; }
    assert ByteSum(s[2..]) == s[2] as int + s[3] + s[4] by { assert s[2..][1..] == s[3..]; }
    assert ByteSum(s[1..]) == s[1] as int + s[2] + s[3] + s[4] by { assert s[1..][1..] == s[2..]; }
  }

  lemma PowerPrefixXors()
    ensures Frames.XorFold(PowerOnBytes[..5]) == 0x87 && Frames.XorFold(PowerOffBytes[..5]) == 0x86
  {
    PowerPrefixXorSteps();
    var on, off := PowerOnBytes[..5], PowerOffBytes[..5];
    assert on[..4] == off[..4];
    assert Frames.XorFold(on[..1]) == 0x80 by { assert on[..1][..0] == []; Frames.XorZero(0x80); }
    assert Frames.XorFold(on[..2]) == 0x85 by { assert on[..2][..1] == on[..1]; }
    assert Frames.XorFold(on[..3]) == 0x87 by { assert on[..3][..2] == on[..2]; }
    assert Frames.XorFold(on[..4]) == 0x86 by { assert on[..4][..3] == on[..3]; }
    assert on[..4] == on[..|on| - 1] && off[..4] == off[..|off| - 1];
    assert on[4] == 0x01 && off[4] == 0x00;
    Frames.XorZero(0x86);
    assert Frames.XorFold(on) == Frames.XorByte(Frames.XorFold(on[..4]), on[4]);
    assert Frames.XorFold(off) == Frames.XorByte(Frames.XorFold(off[..4]), off[4]);
  }

  lemma PowerPrefixXorSteps()
    ensures Frames.Xor(0x80, 0x05) == 0x85 && Frames.Xor(0x85, 0x02) == 0x87
    ensures Frames.Xor(0x87, 0x01) == 0x86 && Frames.Xor(0x86, 0x01) == 0x87
  {
    assert Frames.Xor(32, 1) == 33;
    assert Frames.Xor(64, 2) == 66;
    assert Frames.Xor(66, 1) == 67;
    assert Frames.Xor(67, 0) == 67;
  }

  /** Every command text has even length and only lowercase hex digits, so `fromhex` cannot fail on it. */
  lemma CommandsAreWellFormedHex()
    ensures |COMMAND_POWER_ON| % 2 == 0 && IsLowerHex(COMMAND_POWER_ON) && FromHex(COMMAND_POWER_ON).Some?
    ensures |COMMAND_POWER_OFF| % 2 == 0 && IsLowerHex(COMMAND_POWER_OFF) && FromHex(COMMAND_POWER_OFF).Some?
    ensures |COMMAND_QUERY_POWER| % 2 == 0 && IsLowerHex(COMMAND_QUERY_POWER) && FromHex(COMMAND_QUERY_POWER).Some?
  {
    PowerOnIsText();
    PowerOffIsText();
    QueryPowerIsText();
    PowerOnDecodes();
    PowerOffDecodes();
    QueryPowerDecodes();
    ToHexIsLower(PowerOnBytes);
    ToHexIsLower(PowerOffBytes);
    ToHexIsLower(QueryPowerBytes);
  }
}
