/**
  Messages: their constructors, what each constructor guarantees, and the payload of close messages.
 */
module Messages {
  import opened Bytes
  import opened Wrappers
  import opened Opcodes
  import opened Close
  import opened Frame
  import opened Utf8

  datatype Message = Message(opcode: Opcode, data: seq<byte>)

  datatype MessageError = CloseTooShort | InvalidUtf8

  const MAX_CONTROL_PAYLOAD: nat := 125

  /** What the unchecked conversions in `as_text` and `CloseFrame::reason` rely on. */
  predicate Valid(m: Message) {
    match m.opcode
    case Text => ValidUtf8(m.data)
    case Close => m.data == [] || (|m.data| >= 2 && ValidUtf8(m.data[2..]))
    case _ => true
  }

  /** A valid message that section 5.5 of RFC 6455 lets a peer send in one frame. */
  predicate WellFormed(m: Message) {
    Valid(m) && (m.opcode.IsControl() ==> |m.data| <= MAX_CONTROL_PAYLOAD)
  }

  function New(opcode: Opcode, data: seq<byte>): (r: Result<Message, MessageError>)
    ensures r.Ok? <==> Valid(Message(opcode, data))
    ensures r.Ok? ==> r.value == Message(opcode, data)
  {
    match opcode
    case Close =>
      if |data| == 0 then Ok(Message(opcode, data))
      else if |data| == 1 then Err(CloseTooShort)
      else if ValidUtf8(data[2..]) then Ok(Message(opcode, data))
      else Err(InvalidUtf8)
    case Text =>
      if ValidUtf8(data) then Ok(Message(opcode, data)) else Err(InvalidUtf8)
    case _ => Ok(Message(opcode, data))
  }

  /** Text, and the reason in a close message, is accepted exactly if it encodes Unicode scalar values. */
  lemma NewExactly(opcode: Opcode, data: seq<byte>)
    ensures New(opcode, data).Ok? <==>
      match opcode
      case Text => IsText(data)
      case Close => data == [] || (|data| >= 2 && IsText(data[2..]))
      case _ => true
  {
    hide ValidUtf8, IsText;
    ValidUtf8IsText(data);
    if |data| >= 2 {
      ValidUtf8IsText(data[2..]);
    }
  }

  /** A `String` holds valid UTF-8. */
  type Utf8String = s: seq<byte> | ValidUtf8(s) witness []

  function NewText(data: Utf8String): (m: Message)
    ensures Valid(m) && AsText(m) == Some(data)
  {
    Message(Text, data)
  }

  function NewBinary(data: seq<byte>): (m: Message)
    ensures Valid(m) && m.opcode.ToByte() == 2 && m.data == data
  {
    Message(Binary, data)
  }

  function NewClose(): (m: Message)
    ensures WellFormed(m) && m.opcode.ToByte() == 8 && AsClose(m) == None
  {
    Message(Opcode.Close, [])
  }

  function NewPing(data: seq<byte>): (m: Message)
    ensures Valid(m) && m.opcode.ToByte() == 9 && m.data == data
  {
    Message(Ping, data)
  }

  function NewPong(data: seq<byte>): (m: Message)
    ensures Valid(m) && m.opcode.ToByte() == 10 && m.data == data
  {
    Message(Pong, data)
  }

  function Header(m: Message, mask: Option<bv32>): (h: FrameHeader)
    requires |m.data| < TWO_TO_THE_63
    ensures Fits(h)
  {
    OpcodeFits(m.opcode);
    FrameHeader(true, 0, m.opcode.ToByte(), mask, DataLengthOf(|m.data|))
  }

  lemma OpcodeFits(opcode: Opcode)
    ensures FitsOpcode(opcode.ToByte()) && FitsRsv(0)
  {
  }

  function AsText(m: Message): (r: Option<seq<byte>>)
    ensures r.Some? <==> m == Message(Text, m.data)
    ensures r.Some? ==> r.value == m.data
    ensures Valid(m) && r.Some? ==> ValidUtf8(r.value)
  {
    if m.opcode.IsText() then Some(m.data) else None
  }

  function AsClose(m: Message): (r: Option<CloseFrame>)
    ensures Valid(m) ==> (r.Some? <==> m.opcode.Close? && m.data != [])
    ensures r.Some? ==> m.data == WriteBigEndian(r.value.code.ToU16(), 2) + r.value.reason
    ensures Valid(m) && r.Some? ==> ValidUtf8(r.value.reason)
  {
    if m.opcode.Close? && |m.data| >= 2 then
      ReadFits(m.data[..2], 2);
      WriteOfReadBigEndian(m.data[..2]);
      Some(CloseFrame(CloseCodeOf(ReadBigEndian(m.data[..2])), m.data[2..]))
    else
      None
  }

  /**
    A close message whose payload is the number `n`, most significant byte first, and a reason is read as the close
    code of that number and the reason.
   */
  lemma AsCloseReads(data: seq<byte>, c: CloseCode, n: u16)
    requires |data| >= 2 && n == 256 * ToInt(data[0]) + ToInt(data[1])
    ensures AsClose(Message(Opcode.Close, data)) == Some(CloseFrame(c, data[2..])) <==> Numbered(c, n)
  {
    hide ToInt, CloseCodeOf, Numbered;
    TwoDigits(data[..2]);
    NumberedExactly(c, n);
  }

  // ---------- close messages with a reason ----------

  /** `t` is the longest well-formed prefix of `s` that has at most `limit` bytes. */
  ghost predicate LongestPrefix(t: seq<byte>, s: seq<byte>, limit: nat) {
    && t <= s && |t| <= limit && ValidUtf8(t)
    && forall n :: |t| < n <= limit && n <= |s| ==> !ValidUtf8(s[..n])
  }

  /** Cuts the string `s` at the last character boundary that is at most `newLen`. */
  method TruncateFloorCharBoundary(s: Utf8String, newLen: nat) returns (t: Utf8String, len: nat)
    ensures len == |t| && LongestPrefix(t, s, newLen)
    ensures |s| <= newLen ==> t == s
    ensures newLen < |s| ==> newLen - len <= 3
  {
    t, len := s, |s|;
    if len > newLen {
      len := newLen;
      if newLen >= 3 {
        BoundaryWithinThree(s, newLen);
      }
      while !IsCharBoundary(s, len)
        decreases len
        invariant len <= newLen
        invariant forall n :: len < n <= newLen ==> !IsCharBoundary(s, n)
      {
        len := len - 1;
      }
      forall n | 0 <= n <= newLen
        ensures IsCharBoundary(s, n) <==> ValidUtf8(s[..n])
      {
        BoundaryIffValidPrefix(s, n);
      }
      t := s[..len];
    }
  }

  /** Moves the first `n` bytes of `a` up by `shift` places, the last byte first. */
  method CopyWithin(a: array<byte>, n: nat, shift: nat)
    requires n + shift <= a.Length
    modifies a
    ensures a[..] == Splice(old(a[..]), shift, old(a[..n]))
  {
    for i := n downto 0
      invariant forall k :: i + shift <= k < n + shift ==> a[k] == old(a[k - shift])
      invariant forall k :: 0 <= k < a.Length && !(i + shift <= k < n + shift) ==> a[k] == old(a[k])
    {
      a[i + shift] := a[i];
    }
  }

  /** Puts the two bytes of `code` before the text, which moves up to make room. */
  method ClosePayload(code: u16, t: seq<byte>) returns (payload: seq<byte>)
    ensures payload == WriteBigEndian(code, 2) + t
  {
    hide WriteBigEndian;
    var data := new byte[|t| + 2];
    CopyFromSlice(data, 0, t + [0, 0]);
    assert data[..|t|] == t;
    CopyWithin(data, |t|, 2);
    assert data[..][2..] == t;
    CopyFromSlice(data, 0, WriteBigEndian(code, 2));
    payload := data[..];
  }

  lemma AsCloseOfPayload(code: u16, t: seq<byte>)
    ensures
      var m := Message(Opcode.Close, WriteBigEndian(code, 2) + t);
      && AsClose(m) == Some(CloseFrame(CloseCodeOf(code), t)) && (ValidUtf8(t) ==> Valid(m))
      && 256 * ToInt(m.data[0]) + ToInt(m.data[1]) == code
  {
    hide ValidUtf8, ReadBigEndian, WriteBigEndian, Pow256, CloseCodeOf;
    var data := WriteBigEndian(code, 2) + t;
    assert data[..2] == WriteBigEndian(code, 2) && data[2..] == t;
    TwoDigits(data[..2]);
    PowersOf256();
    ReadOfWriteBigEndian(code, 2);
  }

  /**
    A close message carrying `code` and as much of `reason` as fits: it always fits one control frame, and
    `as_close` gives back the code and the longest prefix of the reason that has at most 123 bytes.
   */
  method CloseWithReason(code: CloseCode, reason: Utf8String) returns (m: Message)
    ensures m.opcode == Opcode.Close && WellFormed(m)
    ensures AsClose(m).Some?
    ensures |m.data| >= 2 && 256 * ToInt(m.data[0]) + ToInt(m.data[1]) == code.ToU16()
    ensures AsClose(m).value.code == CloseCodeOf(code.ToU16())
    ensures Numbered(AsClose(m).value.code, code.ToU16())
    ensures Numbered(code, code.ToU16()) ==> AsClose(m).value.code == code
    ensures LongestPrefix(AsClose(m).value.reason, reason, 123)
  {
    hide ValidUtf8, WriteBigEndian, CloseCodeOf, AsClose;
    var t, _ := TruncateFloorCharBoundary(reason, 123);
    var payload := ClosePayload(code.ToU16(), t);
    AsCloseOfPayload(code.ToU16(), t);
    NumberedExactly(code, code.ToU16());
    NumberedExactly(CloseCodeOf(code.ToU16()), code.ToU16());
    m := Message(Opcode.Close, payload);
  }
}
