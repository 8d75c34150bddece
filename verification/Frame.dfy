/**
  Frame headers: their layout in section 5.2 of RFC 6455, the parser and the printers.
 */
module Frame {
  import opened Bytes
  import opened Wrappers

  /** The three forms in which a header can give the length of the payload. */
  datatype DataLength = Small(small: byte) | Medium(medium: u16) | Large(large: u64)

  datatype FrameHeader = FrameHeader(fin: bool, rsv: byte, opcode: byte, mask: Option<bv32>, dataLen: DataLength)

  datatype LengthError =
    | NeedlesslyMedium(n: u64)  // should not be represented using 16 bits
    | NeedlesslyLarge(n: u64)   // should not be represented using 64 bits
    | FrameTooLong(n: u64)      // at least 2^63 bytes

  // ---------- payload lengths ----------

  /** The number that a length form spells out, whether or not the form is the one it should have. */
  function LengthValue(len: DataLength): (n: nat)
    ensures n < TWO_TO_THE_64
  {
    match len
    case Small(n) => ToInt(n)
    case Medium(n) => n
    case Large(n) => n
  }

  function DataLengthOf(n: u64): (len: DataLength)
    ensures LengthValue(len) == n
    ensures len.Small? ==> ToInt(len.small) <= 125
  {
    if n <= 125 then Small(ToByte(n)) else if n <= 65535 then Medium(n) else Large(n)
  }

  function TryU64(len: DataLength): Result<u64, LengthError> {
    match len
    case Small(n) => Ok(ToInt(n))
    case Medium(n) => if n <= 125 then Err(NeedlesslyMedium(n)) else Ok(n)
    case Large(n) =>
      if n <= 65535 then Err(NeedlesslyLarge(n))
      else if n >= TWO_TO_THE_63 then Err(FrameTooLong(n))
      else Ok(n)
  }

  /** With a 64-bit `usize` the second conversion never fails. */
  function TryUsize(len: DataLength): Result<u64, LengthError> {
    TryU64(len)
  }

  /**
    Each payload length below 2^63 has exactly one accepted form, the one `DataLengthOf` picks, among the forms
    a header can hold (a seven-bit field holds at most 125 before it announces an extended form).
   */
  lemma OneAcceptedForm(len: DataLength, n: u64)
    requires len.Small? ==> ToInt(len.small) <= 125
    ensures TryUsize(len) == Ok(n) <==> len == DataLengthOf(n) && n < TWO_TO_THE_63
  {
    if len.Small? && n <= 125 && ToInt(len.small) == n {
      ToIntInjective(len.small, ToByte(n));
    }
  }

  /** Section 5.2 of RFC 6455: the form chosen for a length is the shortest that can hold it. */
  lemma ShortestForm(n: u64, len: DataLength)
    requires LengthValue(len) == n && (len.Small? ==> n <= 125)
    ensures HeaderLen(FrameHeader(true, 0, 0, None, DataLengthOf(n))) <= HeaderLen(FrameHeader(true, 0, 0, None, len))
    ensures DataLengthOf(n).Small? <==> n <= 125
    ensures DataLengthOf(n).Medium? <==> 126 <= n <= 65535
  {
  }

  // ---------- the fixed two bytes ----------

  function FinBit(b: byte): bool { b & 0x80 != 0 }

  function RsvBits(b: byte): byte { (b & 0xf0) & !0x80 }

  function OpcodeBits(b: byte): byte { b & 0x0f }

  function MaskBit(b: byte): bool { b & 0x80 != 0 }

  function LengthBits(b: byte): byte { b & 0x7f }

  function FirstByte(fin: bool, rsv: byte, opcode: byte): byte {
    rsv | opcode | (if fin then 0x80 else 0)
  }

  function SecondByte(masked: bool, lengthBits: byte): byte {
    (if masked then 0x80 else 0) | lengthBits
  }

  predicate FitsRsv(rsv: byte) { rsv & 0x8f == 0 }

  predicate FitsOpcode(opcode: byte) { opcode <= 15 }

  predicate FitsLength(n: byte) { n <= 127 }

  lemma FirstByteFields(fin: bool, rsv: byte, opcode: byte)
    requires FitsRsv(rsv) && FitsOpcode(opcode)
    ensures FinBit(FirstByte(fin, rsv, opcode)) == fin
    ensures RsvBits(FirstByte(fin, rsv, opcode)) == rsv
    ensures OpcodeBits(FirstByte(fin, rsv, opcode)) == opcode
  {
  }

  lemma FirstByteOfFields(b: byte)
    ensures FirstByte(FinBit(b), RsvBits(b), OpcodeBits(b)) == b
    ensures FitsRsv(RsvBits(b)) && FitsOpcode(OpcodeBits(b))
  {
  }

  lemma SecondByteFields(masked: bool, n: byte)
    requires FitsLength(n)
    ensures MaskBit(SecondByte(masked, n)) == masked
    ensures LengthBits(SecondByte(masked, n)) == n
  {
  }

  lemma SecondByteOfFields(b: byte)
    ensures SecondByte(MaskBit(b), LengthBits(b)) == b
    ensures FitsLength(LengthBits(b))
  {
  }

  lemma SmallLengthBits(n: byte)
    ensures FitsLength(n) && n != 126 && n != 127 <==> ToInt(n) <= 125
  {
  }

  // ---------- whole headers ----------

  function HeaderLen(h: FrameHeader): (n: nat)
    ensures 2 <= n <= 14
  {
    2 + (match h.dataLen case Small(_) => 0 case Medium(_) => 2 case Large(_) => 8)
      + (if h.mask.Some? then 4 else 0)
  }

  /** Reads the length whose first seven bits are `bits`, and says where in `buf` the rest of the header starts. */
  function ParseLength(bits: byte, buf: seq<byte>): (r: Option<(DataLength, nat)>)
    requires |buf| >= 2
    ensures r.Some? ==> 2 <= r.value.1 <= |buf|
  {
    if bits == 127 then
      if |buf| < 10 then None else
        ReadFits(buf[2..10], 8);
        Some((Large(ReadBigEndian(buf[2..10])), 10))
    else if bits == 126 then
      if |buf| < 4 then None else
        ReadFits(buf[2..4], 2);
        Some((Medium(ReadBigEndian(buf[2..4])), 4))
    else
      Some((Small(bits), 2))
  }

  function ParseSlice(buf: seq<byte>): (r: Option<(FrameHeader, nat)>)
    ensures r.Some? ==> r.value.1 == HeaderLen(r.value.0) <= |buf|
  {
    if |buf| < 2 then None else
      var length := ParseLength(LengthBits(buf[1]), buf);
      if length.None? then None else
        var (dataLen, at) := length.value;
        var fin, rsv, opcode := FinBit(buf[0]), RsvBits(buf[0]), OpcodeBits(buf[0]);
        if !MaskBit(buf[1]) then
          Some((FrameHeader(fin, rsv, opcode, None, dataLen), at))
        else if |buf| - at < 4 then
          None
        else
          Some((FrameHeader(fin, rsv, opcode, Some(WordOf(buf[at..at + 4])), dataLen), at + 4))
  }

  lemma ReadFits(s: seq<byte>, k: nat)
    requires |s| == k && (k == 2 || k == 8)
    ensures ReadBigEndian(s) < if k == 2 then TWO_TO_THE_16 else TWO_TO_THE_64
  {
    PowersOf256();
  }

  lemma PowersOf256()
    ensures Pow256(2) == TWO_TO_THE_16 && Pow256(8) == TWO_TO_THE_64
  {
    assert Pow256(4) == 256 * Pow256(3) == 256 * (256 * Pow256(2));
    assert Pow256(8) == 256 * Pow256(7) == 256 * (256 * Pow256(6)) == 256 * (256 * (256 * Pow256(5)));
  }

  /** The seven length bits of the second byte. */
  function LengthField(len: DataLength): byte {
    match len case Small(n) => n case Medium(_) => 126 case Large(_) => 127
  }

  function LengthBytes(len: DataLength): (s: seq<byte>)
    ensures |s| == match len case Small(_) => 0 case Medium(_) => 2 case Large(_) => 8
  {
    match len
    case Small(_) => []
    case Medium(n) => WriteBigEndian(n, 2)
    case Large(n) => WriteBigEndian(n, 8)
  }

  /** The bytes of a header in the order section 5.2 of RFC 6455 draws them. */
  function HeaderBytes(h: FrameHeader): (s: seq<byte>)
    ensures |s| == HeaderLen(h)
  {
    [FirstByte(h.fin, h.rsv, h.opcode), SecondByte(h.mask.Some?, LengthField(h.dataLen))]
    + LengthBytes(h.dataLen)
    + (if h.mask.Some? then WordBytes(h.mask.value) else [])
  }

  /** The headers whose fields fit the bits set aside for them. */
  predicate Fits(h: FrameHeader) {
    FitsRsv(h.rsv) && FitsOpcode(h.opcode) && (h.dataLen.Small? ==> ToInt(h.dataLen.small) <= 125)
  }

  // ---------- the layout in section 5.2 of RFC 6455, as numbers ----------

  /** The number that the four bytes of `s` from `at` on spell, most significant first. */
  function FourDigits(s: seq<byte>, at: nat): nat
    requires at + 4 <= |s|
  {
    0x100_0000 * ToInt(s[at]) + 0x1_0000 * ToInt(s[at + 1]) + 0x100 * ToInt(s[at + 2]) + ToInt(s[at + 3])
  }

  /**
    `s` is the header `h` by the numbers alone. Byte 0 is FIN worth 128, the reserved bits, which are a multiple of 16,
    and the opcode, which is below 16. Byte 1 is the mask bit worth 128 and a length of at most 125, or 126 or 127,
    which announce a length in two or eight bytes, most significant first. The last four bytes of a masked header are
    the digits of the mask, least significant first.
   */
  ghost predicate LaidOut(h: FrameHeader, s: seq<byte>) {
    && |s| == 2 + (match h.dataLen case Small(_) => 0 case Medium(_) => 2 case Large(_) => 8)
                + (if h.mask.Some? then 4 else 0)
    && ToInt(h.rsv) % 16 == 0 && ToInt(h.rsv) < 128 && ToInt(h.opcode) < 16
    && ToInt(s[0]) == (if h.fin then 128 else 0) + ToInt(h.rsv) + ToInt(h.opcode)
    && (match h.dataLen
        case Small(n) => ToInt(n) <= 125 && ToInt(s[1]) == (if h.mask.Some? then 128 else 0) + ToInt(n)
        case Medium(n) =>
          && ToInt(s[1]) == (if h.mask.Some? then 128 else 0) + 126
          && n == 256 * ToInt(s[2]) + ToInt(s[3])
        case Large(n) =>
          && ToInt(s[1]) == (if h.mask.Some? then 128 else 0) + 127
          && n == 0x1_0000_0000 * FourDigits(s, 2) + FourDigits(s, 6))
    && (h.mask.Some? ==>
          var at := |s| - 4;
          h.mask.value == (s[at] as bv32) + (s[at + 1] as bv32) * 0x100
                          + (s[at + 2] as bv32) * 0x1_0000 + (s[at + 3] as bv32) * 0x100_0000)
  }

  lemma FirstByteNumber(fin: bool, rsv: byte, opcode: byte)
    requires FitsRsv(rsv) && FitsOpcode(opcode)
    ensures ToInt(rsv) % 16 == 0 && ToInt(rsv) < 128 && ToInt(opcode) < 16
    ensures ToInt(FirstByte(fin, rsv, opcode)) == (if fin then 128 else 0) + ToInt(rsv) + ToInt(opcode)
  {
    RsvNumber(rsv);
    OpcodeNumber(opcode);
    FirstByteIsSum(fin, rsv, opcode);
    TopBitNumber();
    hide ToInt, FirstByte, FitsRsv, FitsOpcode;
    ToIntSum(rsv, opcode);
    if fin {
      ToIntSum(0x80, rsv + opcode);
    }
  }

  lemma RsvNumber(rsv: byte)
    requires FitsRsv(rsv)
    ensures ToInt(rsv) % 16 == 0 && ToInt(rsv) < 128
  {
  }

  lemma OpcodeNumber(opcode: byte)
    requires FitsOpcode(opcode)
    ensures ToInt(opcode) < 16
  {
    ToIntOrder(opcode, 15);
  }

  lemma TopBitNumber()
    ensures ToInt(0x80) == 128 && ToInt(126) == 126 && ToInt(127) == 127
  {
  }

  lemma FirstByteIsSum(fin: bool, rsv: byte, opcode: byte)
    requires FitsRsv(rsv) && FitsOpcode(opcode)
    ensures FirstByte(fin, rsv, opcode) == if fin then 0x80 + (rsv + opcode) else rsv + opcode
  {
  }

  lemma SecondByteIsSum(masked: bool, n: byte)
    requires FitsLength(n)
    ensures SecondByte(masked, n) == if masked then 0x80 + n else n
  {
  }

  lemma SecondByteNumber(masked: bool, n: byte)
    requires FitsLength(n)
    ensures ToInt(SecondByte(masked, n)) == (if masked then 128 else 0) + ToInt(n)
  {
    SecondByteIsSum(masked, n);
    ToIntOrder(n, 127);
    TopBitNumber();
    hide ToInt, SecondByte, FitsLength;
    if masked {
      ToIntSum(0x80, n);
    }
  }

  lemma TwoDigits(s: seq<byte>)
    requires |s| == 2
    ensures ReadBigEndian(s) == 256 * ToInt(s[0]) + ToInt(s[1])
  {
    hide ToInt;
    assert s[..1][..0] == [];
    assert ReadBigEndian(s[..1]) == ToInt(s[0]);
  }

  lemma TwoMoreDigits(s: seq<byte>, k: nat)
    requires k + 2 <= |s|
    ensures ReadBigEndian(s[..k + 2]) == 0x1_0000 * ReadBigEndian(s[..k]) + 0x100 * ToInt(s[k]) + ToInt(s[k + 1])
  {
    hide ToInt, ReadBigEndian;
    assert s[..k + 1] == s[..k] + [s[k]] && s[..k + 2] == s[..k + 1] + [s[k + 1]];
    ReadBigEndianSnoc(s[..k], s[k]);
    ReadBigEndianSnoc(s[..k + 1], s[k + 1]);
  }

  lemma FourDigitsMoved(s: seq<byte>, t: seq<byte>, at: nat)
    requires 2 + |t| <= |s| && s[2..2 + |t|] == t && at + 4 <= |t|
    ensures FourDigits(s, 2 + at) == FourDigits(t, at)
  {
    hide ToInt;
    assert forall i :: 0 <= i < |t| ==> t[i] == s[2 + i];
  }

  lemma EightDigits(s: seq<byte>)
    requires |s| == 8
    ensures ReadBigEndian(s) == 0x1_0000_0000 * FourDigits(s, 0) + FourDigits(s, 4)
  {
    hide ToInt, ReadBigEndian;
    assert s[..4][..2] == s[..2];
    TwoDigits(s[..2]);
    TwoMoreDigits(s, 2);
    assert ReadBigEndian(s[..4]) == FourDigits(s, 0);
    TwoMoreDigits(s, 4);
    TwoMoreDigits(s, 6);
    assert s[..8] == s;
  }

  /** Printed headers have the layout of section 5.2 of RFC 6455. */
  lemma HeaderBytesLaidOut(h: FrameHeader)
    requires Fits(h)
    ensures LaidOut(h, HeaderBytes(h))
  {
    hide FirstByte, SecondByte, FitsRsv, FitsOpcode, FitsLength, WordBytes, LengthBytes, FourDigits, ToInt;
    var s, t := HeaderBytes(h), LengthBytes(h.dataLen);
    assert s[2..2 + |t|] == t;
    if h.dataLen.Large? {
      FourDigitsMoved(s, t, 0);
      FourDigitsMoved(s, t, 4);
    }
    FirstByteNumber(h.fin, h.rsv, h.opcode);
    LengthFieldFits(h.dataLen);
    SecondByteNumber(h.mask.Some?, LengthField(h.dataLen));
    TopBitNumber();
    LengthBytesNumber(h.dataLen);
    if h.mask.Some? {
      WordBytesAreDigits(h.mask.value);
      assert s[|s| - 4..] == WordBytes(h.mask.value);
    }
  }

  lemma LengthBytesNumber(len: DataLength)
    ensures len.Medium? ==>
      var s := LengthBytes(len);
      len.medium == 256 * ToInt(s[0]) + ToInt(s[1])
    ensures len.Large? ==>
      var s := LengthBytes(len);
      len.large == 0x1_0000_0000 * FourDigits(s, 0) + FourDigits(s, 4)
  {
    hide ToInt, ReadBigEndian, WriteBigEndian, Pow256;
    PowersOf256();
    match len
    case Small(_) =>
    case Medium(n) =>
      ReadOfWriteBigEndian(n, 2);
      TwoDigits(WriteBigEndian(n, 2));
    case Large(n) =>
      ReadOfWriteBigEndian(n, 8);
      EightDigits(WriteBigEndian(n, 8));
  }

  /** In any buffer, the fields that the parser returns are those that the bytes spell in that layout. */
  lemma ParsedLaidOut(buf: seq<byte>)
    requires ParseSlice(buf).Some?
    ensures LaidOut(ParseSlice(buf).value.0, buf[..ParseSlice(buf).value.1])
  {
    hide *;
    HeaderBytesOfParse(buf);
    HeaderBytesLaidOut(ParseSlice(buf).value.0);
  }

  // ---------- printer and parser undo each other ----------

  /** Parsing a printed header returns it, whatever bytes follow. */
  lemma ParseOfHeaderBytes(h: FrameHeader, rest: seq<byte>)
    requires Fits(h)
    ensures ParseSlice(HeaderBytes(h) + rest) == Some((h, HeaderLen(h)))
  {
    hide FinBit, RsvBits, OpcodeBits, MaskBit, LengthBits, FirstByte, SecondByte, FitsRsv, FitsOpcode, FitsLength;
    hide WordOf, WordBytes, ReadBigEndian, WriteBigEndian, Pow256, ToInt;
    var buf := HeaderBytes(h) + rest;
    FirstByteFields(h.fin, h.rsv, h.opcode);
    LengthFieldFits(h.dataLen);
    SecondByteFields(h.mask.Some?, LengthField(h.dataLen));
    var at := 2 + |LengthBytes(h.dataLen)|;
    assert buf[2..at] == LengthBytes(h.dataLen);
    ParseOfLengthBytes(h.dataLen, buf);
    if h.mask.Some? {
      assert buf[at..at + 4] == WordBytes(h.mask.value);
      WordOfWordBytes(h.mask.value);
    }
  }

  lemma LengthFieldFits(len: DataLength)
    requires len.Small? ==> ToInt(len.small) <= 125
    ensures FitsLength(LengthField(len))
    ensures len.Small? ==> len.small != 126 && len.small != 127
  {
    if len.Small? {
      SmallLengthBits(len.small);
    }
  }

  lemma ParseOfLengthBytes(len: DataLength, buf: seq<byte>)
    requires len.Small? ==> ToInt(len.small) <= 125
    requires |buf| >= 2 + |LengthBytes(len)| && buf[2..2 + |LengthBytes(len)|] == LengthBytes(len)
    ensures ParseLength(LengthField(len), buf) == Some((len, 2 + |LengthBytes(len)|))
  {
    hide ReadBigEndian, WriteBigEndian, Pow256, ToInt;
    PowersOf256();
    match len
    case Small(n) => LengthFieldFits(len);
    case Medium(n) => ReadOfWriteBigEndian(n, 2);
    case Large(n) => ReadOfWriteBigEndian(n, 8);
  }

  /** Reprinting a parsed header gives back exactly the bytes it was parsed from. */
  lemma HeaderBytesOfParse(buf: seq<byte>)
    requires ParseSlice(buf).Some?
    ensures Fits(ParseSlice(buf).value.0)
    ensures HeaderBytes(ParseSlice(buf).value.0) == buf[..ParseSlice(buf).value.1]
  {
    hide FinBit, RsvBits, OpcodeBits, MaskBit, LengthBits, FirstByte, SecondByte, FitsRsv, FitsOpcode, FitsLength;
    hide WordOf, WordBytes, ReadBigEndian, WriteBigEndian, Pow256, ToInt;
    FirstByteOfFields(buf[0]);
    SecondByteOfFields(buf[1]);
    var bits := LengthBits(buf[1]);
    var (h, n) := ParseSlice(buf).value;
    var at := ParseLength(bits, buf).value.1;
    LengthBytesOfParse(bits, buf);
    assert buf[..at] == buf[..2] + buf[2..at];
    if h.mask.Some? {
      WordBytesOfWordOf(buf[at..at + 4]);
      assert buf[..n] == buf[..at] + buf[at..at + 4];
    }
  }

  lemma LengthBytesOfParse(bits: byte, buf: seq<byte>)
    requires FitsLength(bits) && |buf| >= 2 && ParseLength(bits, buf).Some?
    ensures var (len, at) := ParseLength(bits, buf).value;
      && LengthField(len) == bits && LengthBytes(len) == buf[2..at]
      && (len.Small? ==> ToInt(len.small) <= 125)
  {
    hide ReadBigEndian, WriteBigEndian, Pow256;
    SmallLengthBits(bits);
    if bits == 127 {
      WriteOfReadBigEndian(buf[2..10]);
    } else if bits == 126 {
      WriteOfReadBigEndian(buf[2..4]);
    }
  }

  /** The number of length bytes that the second byte announces: its value modulo 128 is the length, or 126 or 127. */
  function AnnouncedDigits(second: byte): nat {
    if ToInt(second) % 128 == 127 then 8 else if ToInt(second) % 128 == 126 then 2 else 0
  }

  /** The header length that the second byte announces: a value of 128 or more announces a mask. */
  function AnnouncedLen(second: byte): nat {
    2 + AnnouncedDigits(second) + (if ToInt(second) >= 128 then 4 else 0)
  }

  lemma AnnouncedBits(second: byte)
    ensures LengthBits(second) == 127 <==> ToInt(second) % 128 == 127
    ensures LengthBits(second) == 126 <==> ToInt(second) % 128 == 126
    ensures MaskBit(second) <==> ToInt(second) >= 128
  {
    var masked, n := MaskBit(second), LengthBits(second);
    SecondByteOfFields(second);
    SecondByteNumber(masked, n);
    ToIntOrder(n, 127);
    TopBitNumber();
    hide ToInt, MaskBit, LengthBits, SecondByte, FitsLength;
    LengthBitsFit(second);
    if ToInt(n) == 127 {
      ToIntInjective(n, 127);
    } else if ToInt(n) == 126 {
      ToIntInjective(n, 126);
    }
  }

  lemma LengthBitsFit(second: byte)
    ensures LengthBits(second) <= 127
  {
  }

  /** The parser waits exactly while the header its first two bytes announce is incomplete. */
  lemma ParseWaits(buf: seq<byte>)
    ensures ParseSlice(buf) == None <==> |buf| < 2 || |buf| < AnnouncedLen(buf[1])
    ensures ParseSlice(buf).Some? ==> ParseSlice(buf).value.1 == AnnouncedLen(buf[1])
  {
    hide FinBit, RsvBits, OpcodeBits, MaskBit, LengthBits, WordOf, ReadBigEndian, ToInt;
    if |buf| >= 2 {
      AnnouncedBits(buf[1]);
    }
  }

  /** The parser ignores whatever follows the header. */
  lemma ParseStable(buf: seq<byte>, more: seq<byte>)
    requires ParseSlice(buf).Some?
    ensures ParseSlice(buf + more) == ParseSlice(buf)
  {
    var (h, n) := ParseSlice(buf).value;
    HeaderBytesOfParse(buf);
    ParseOfHeaderBytes(h, buf[n..] + more);
    assert buf + more == HeaderBytes(h) + (buf[n..] + more) by {
      hide *;
      assert buf == buf[..n] + buf[n..];
    }
  }

  // ---------- writing headers into buffers ----------

  method WriteLength(len: DataLength, mem: array<byte>, lo: nat)
    requires lo + |LengthBytes(len)| <= mem.Length
    modifies mem
    ensures mem[..] == Splice(old(mem[..]), lo, LengthBytes(len))
  {
    hide WriteBigEndian, ToInt;
    match len {
      case Small(_) =>
      case Medium(n) => CopyFromSlice(mem, lo, WriteBigEndian(n, 2));
      case Large(n) => CopyFromSlice(mem, lo, WriteBigEndian(n, 8));
    }
  }

  /** Writes the header over the bytes of the slice of `mem` that starts at `lo`. */
  method WriteToSlice(h: FrameHeader, mem: array<byte>, lo: nat)
    requires lo + HeaderLen(h) <= mem.Length
    modifies mem
    ensures mem[..] == Splice(old(mem[..]), lo, HeaderBytes(h))
  {
    hide FirstByte, SecondByte, LengthField, WordBytes, Splice, LengthBytes;
    ghost var s := mem[..];
    var fixed := [FirstByte(h.fin, h.rsv, h.opcode), SecondByte(h.mask.Some?, LengthField(h.dataLen))];
    AdjacentSplices(s, lo, fixed, LengthBytes(h.dataLen));
    CopyFromSlice(mem, lo, fixed);
    WriteLength(h.dataLen, mem, lo + 2);
    if h.mask.Some? {
      var key := WordBytes(h.mask.value);
      AdjacentSplices(s, lo, fixed + LengthBytes(h.dataLen), key);
      assert HeaderBytes(h) == fixed + LengthBytes(h.dataLen) + key;
      CopyFromSlice(mem, lo + |fixed| + |LengthBytes(h.dataLen)|, key);
    } else {
      assert HeaderBytes(h) == fixed + LengthBytes(h.dataLen);
    }
  }

  /** Appends the header, making room for the payload that will follow. */
  method WriteToBytes(h: FrameHeader, dst: BytesMut)
    requires dst.Valid()
    modifies dst, dst.mem
    ensures dst.Valid() && dst.Contents() == old(dst.Contents()) + HeaderBytes(h)
    ensures dst.cap >= dst.len + LengthValue(h.dataLen)
    ensures dst.mem == old(dst.mem) || fresh(dst.mem)
  {
    hide HeaderBytes, HeaderLen, Splice;
    var dataLen := LengthValue(h.dataLen);
    var initialLen := dst.len;
    var headerLen := HeaderLen(h);
    dst.Reserve(headerLen + dataLen);
    SpliceAfter(dst.mem[..], dst.start, dst.start + initialLen, HeaderBytes(h));
    dst.SetLen(initialLen + headerLen);
    WriteToSlice(h, dst.mem, dst.start + initialLen);
  }

  /** Takes one header off the front of `src` if all of it is there. */
  method DecodeHeader(src: BytesMut) returns (header: Option<FrameHeader>)
    requires src.Valid()
    modifies src
    ensures src.Valid() && src.mem == old(src.mem)
    ensures header.None? ==> ParseSlice(old(src.Contents())) == None && src.Contents() == old(src.Contents())
    ensures header.Some? ==> Fits(header.value) && old(src.Contents()) == HeaderBytes(header.value) + src.Contents()
  {
    hide ParseSlice, HeaderBytes, Fits, HeaderLen;
    var parsed := ParseSlice(src.Contents());
    if parsed.None? {
      return None;
    }
    HeaderBytesOfParse(src.Contents());
    src.Advance(parsed.value.1);
    return Some(parsed.value.0);
  }
}
