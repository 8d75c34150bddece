/**
  The message codec: decoding one message from a buffer that may hold less or more than that, with a
  half-received message carried from call to call, and encoding one message onto the end of a buffer.
 */
module Codec {
  import opened Bytes
  import opened Wrappers
  import opened Decoders
  import opened Opcodes
  import opened Frame
  import opened Messages
  import opened Mask

  const USIZE_MAX: nat := TWO_TO_THE_64 - 1

  /** A data message of which some fragments, but not the last, have been received. */
  datatype Partial = Partial(opcode: Opcode, data: seq<byte>)

  type CodecState = Option<Partial>

  datatype CodecError =
    | BadLength(length: LengthError)
    | ExceedsAddressSpace(frameLen: nat)
    | ReservedBits(rsv: byte)
    | UnsupportedOpcode(code: byte)
    | ControlTooLong(dataLen: nat)
    | NotAContinuation(opcode: Opcode)
    | FragmentedControl
    | UnexpectedContinuation
    | BadMessage(message: MessageError)

  // ---------- what `decode` computes ----------

  datatype FrameRead =
    | NeedMore
    | Unreadable(error: CodecError)
    | Complete(header: FrameHeader, payload: seq<byte>, frameLen: nat)

  /** Looks for a complete frame at the start of `src`. */
  function ReadFrame(src: seq<byte>): (r: FrameRead)
    ensures r.Complete? ==> 2 <= r.frameLen <= |src|
  {
    var parsed := ParseSlice(src);
    if parsed.None? then NeedMore else
      var (header, headerLen) := parsed.value;
      match TryUsize(header.dataLen)
      case Err(e) => Unreadable(BadLength(e))
      case Ok(dataLen) =>
        var frameLen := headerLen + dataLen;
        if frameLen > |src| then
          if frameLen > USIZE_MAX - |src| then Unreadable(ExceedsAddressSpace(frameLen)) else NeedMore
        else
          Complete(header, src[headerLen..frameLen], frameLen)
  }

  function Unmasked(header: FrameHeader, payload: seq<byte>): (data: seq<byte>)
    ensures |data| == |payload|
  {
    match header.mask
    case None => payload
    case Some(mask) => Masked(payload, WordBytes(mask))
  }

  /** The checks on a single frame; the result is `None` for a continuation frame. */
  function CheckFrame(header: FrameHeader, dataLen: nat): Result<Option<Opcode>, CodecError> {
    if header.rsv != 0 then Err(ReservedBits(header.rsv))
    else if header.opcode == 0 then Ok(None)
    else match OpcodeOf(header.opcode)
      case None => Err(UnsupportedOpcode(header.opcode))
      case Some(opcode) =>
        if opcode.IsControl() && dataLen >= 126 then Err(ControlTooLong(dataLen)) else Ok(Some(opcode))
  }

  datatype StepResult =
    | Continue(state: CodecState)
    | Emit(opcode: Opcode, data: seq<byte>, state: CodecState)
    | Reject(error: CodecError)

  /** What one complete frame with unmasked payload `data` does to the half-received message. */
  function Step(state: CodecState, header: FrameHeader, data: seq<byte>): StepResult {
    match CheckFrame(header, |data|)
    case Err(e) => Reject(e)
    case Ok(opcode) =>
      if state.Some? then
        if opcode.Some? then
          if header.fin && opcode.value.IsControl() then Emit(opcode.value, data, state)
          else Reject(NotAContinuation(opcode.value))
        else
          var all := state.value.data + data;
          if header.fin then Emit(state.value.opcode, all, None)
          else Continue(Some(Partial(state.value.opcode, all)))
      else if opcode.Some? then
        if header.fin then Emit(opcode.value, data, None)
        else if opcode.value.IsControl() then Reject(FragmentedControl)
        else Continue(Some(Partial(opcode.value, data)))
      else
        Reject(UnexpectedContinuation)
  }

  type CodecOutcome = Outcome<CodecState, Message, CodecError>

  function Finish(opcode: Opcode, data: seq<byte>, state: CodecState, rest: seq<byte>): CodecOutcome {
    match New(opcode, data)
    case Ok(m) => Item(m, state, rest)
    case Err(e) => Fail(BadMessage(e), state, rest)
  }

  datatype Turned =
    | Stop(outcome: CodecOutcome)
    | Again(state: CodecState, rest: seq<byte>)

  /** One turn of the decoding loop. */
  function Turn(state: CodecState, src: seq<byte>): (t: Turned)
    ensures t.Stop? ==> |t.outcome.rest| <= |src|
    ensures t.Stop? && (t.outcome.Item? || ReadFrame(src).Complete?) ==> |t.outcome.rest| <= |src| - 2
    ensures t.Again? ==> |t.rest| <= |src| - 2
  {
    match ReadFrame(src)
    case NeedMore => Stop(NotYet(state, src))
    case Unreadable(e) => Stop(Fail(e, None, src))
    case Complete(header, payload, frameLen) =>
      var rest := src[frameLen..];
      match Step(state, header, Unmasked(header, payload))
      case Continue(next) => Again(next, rest)
      case Reject(e) => Stop(Fail(e, None, rest))
      case Emit(opcode, data, next) => Stop(Finish(opcode, data, next, rest))
  }

  function Decoded(state: CodecState, src: seq<byte>): (o: CodecOutcome)
    ensures |o.rest| <= |src|
    ensures o.Item? ==> |o.rest| <= |src| - 2
    decreases |src|
  {
    match Turn(state, src)
    case Stop(o) => o
    case Again(next, rest) => Decoded(next, rest)
  }

  /** The bytes of the single frame that carries `m`. */
  function Encoded(m: Message, mask: Option<bv32>): seq<byte>
    requires |m.data| < TWO_TO_THE_63
  {
    var header := Header(m, mask);
    HeaderBytes(header) + Unmasked(header, m.data)
  }

  /**
    `s` is one frame that carries `m`: a final frame with the opcode and the length of `m` in the right form, with the
    mask asked for, and after the header the payload, each octet exclusive-or'ed with the octet of the key, itself the
    last four bytes of the header, that section 5.3 of RFC 6455 assigns to it.
   */
  ghost predicate CarriedBy(m: Message, mask: Option<bv32>, s: seq<byte>) {
    var parsed := ParseSlice(s);
    && parsed.Some?
    && var (h, n) := parsed.value;
    && LaidOut(h, s[..n])
    && h.fin && h.rsv == 0 && h.opcode == m.opcode.ToByte() && h.mask == mask
    && TryUsize(h.dataLen) == Ok(|m.data|)
    && |s| == n + |m.data|
    && (mask.None? ==> s[n..] == m.data)
    && (mask.Some? ==> n >= 4 && forall i :: 0 <= i < |m.data| ==> s[n..][i] == m.data[i] ^ s[n - 4..n][i % 4])
  }

  lemma HeaderAccepted(m: Message, mask: Option<bv32>)
    requires |m.data| < TWO_TO_THE_63
    ensures TryUsize(Header(m, mask).dataLen) == Ok(|m.data|)
  {
    OneAcceptedForm(DataLengthOf(|m.data|), |m.data|);
  }

  lemma MaskedOctets(data: seq<byte>, key: Key)
    ensures forall i :: 0 <= i < |data| ==> Masked(data, key)[i] == data[i] ^ key[i % 4]
  {
  }

  lemma KeyEndsHeader(h: FrameHeader)
    requires h.mask.Some?
    ensures HeaderLen(h) >= 6 && HeaderBytes(h)[HeaderLen(h) - 4..] == WordBytes(h.mask.value)
  {
    hide FirstByte, SecondByte, LengthField, LengthBytes, WordBytes;
  }

  lemma EncodedIsCarrier(m: Message, mask: Option<bv32>)
    requires |m.data| < TWO_TO_THE_63
    ensures CarriedBy(m, mask, Encoded(m, mask))
  {
    hide HeaderBytes, HeaderLen, ParseSlice, LaidOut, Fits, Masked, WordBytes, TryU64, DataLengthOf;
    var h := Header(m, mask);
    var s, n := Encoded(m, mask), HeaderLen(h);
    ParseOfHeaderBytes(h, Unmasked(h, m.data));
    HeaderBytesLaidOut(h);
    HeaderAccepted(m, mask);
    assert s[..n] == HeaderBytes(h) && s[n..] == Unmasked(h, m.data);
    if mask.Some? {
      var key := WordBytes(mask.value);
      KeyEndsHeader(h);
      assert s[n - 4..n] == key;
      MaskedOctets(m.data, key);
    }
  }

  // ---------- the codec object ----------

  /** Unmasks the contents of `part` where they lie, leaving the rest of the shared allocation alone. */
  method UnmaskInPlace(part: BytesMut, mask: bv32)
    requires part.Valid()
    modifies part.mem
    ensures part.Contents() == Masked(old(part.Contents()), WordBytes(mask))
    ensures forall i :: 0 <= i < part.mem.Length && !(part.start <= i < part.start + part.len) ==>
      part.mem[i] == old(part.mem[i])
  {
    hide Masked, WordBytes;
    ghost var s := part.mem[..];
    MaskSlice(part.mem, part.base, part.start, part.start + part.len, mask);
    assert part.Contents() == part.mem[..][part.start..part.start + part.len];
    forall i | 0 <= i < part.mem.Length && !(part.start <= i < part.start + part.len)
      ensures part.mem[i] == s[i]
    {
      assert part.mem[i] == part.mem[..][i];
    }
  }

  /** Splits a whole frame off the front of `src` and unmasks its payload where it lies. */
  method SplitFrame(src: BytesMut, header: FrameHeader, headerLen: nat, frameLen: nat) returns (data: seq<byte>)
    requires src.Valid() && headerLen <= frameLen <= src.len
    modifies src, src.mem
    ensures src.Valid() && src.mem == old(src.mem)
    ensures src.Contents() == old(src.Contents())[frameLen..]
    ensures data == Unmasked(header, old(src.Contents())[headerLen..frameLen])
  {
    hide Masked, WordBytes;
    ghost var payload := src.Contents()[headerLen..frameLen];
    var part := src.SplitTo(frameLen);
    part.Advance(headerLen);
    ghost var rest := src.Contents();
    assert part.Contents() == payload;
    if header.mask.Some? {
      UnmaskInPlace(part, header.mask.value);
      assert src.Contents() == rest;
    }
    return part.Contents();
  }

  lemma AcceptedIsValue(len: DataLength)
    ensures TryUsize(len).Ok? ==> TryUsize(len).value == LengthValue(len)
  {
  }

  /**
    The room to make while waiting: for the frame that the header announces, but at most 2^30 bytes at a time, and in
    any case for another header.
   */
  function RoomFor(src: seq<byte>): nat {
    var parsed := ParseSlice(src);
    if parsed.None? then 512 else
      var (header, headerLen) := parsed.value;
      var frameLen := headerLen + LengthValue(header.dataLen);
      (if frameLen < 0x4000_0000 then frameLen else 0x4000_0000) + 512
  }

  /** Takes the next frame off the front of `src` if all of it is there, and otherwise makes room for more of it. */
  method TakeFrame(src: BytesMut) returns (read: FrameRead, data: seq<byte>)
    requires src.Valid()
    modifies src, src.mem
    ensures src.Valid() && (src.mem == old(src.mem) || fresh(src.mem))
    ensures read == ReadFrame(old(src.Contents()))
    ensures src.Contents() == if read.Complete? then old(src.Contents())[read.frameLen..] else old(src.Contents())
    ensures read.Complete? ==> data == Unmasked(read.header, read.payload)
    ensures read.NeedMore? ==> src.cap >= src.len + RoomFor(src.Contents())
  {
    hide ParseSlice, HeaderLen, TryU64, Unmasked;
    data := [];
    var whole := src.Contents();
    var parsed := ParseSlice(whole);
    if parsed.None? {
      src.Reserve(512);
      return NeedMore, [];
    }
    var (header, headerLen) := parsed.value;
    var length := TryUsize(header.dataLen);
    if length.Err? {
      return Unreadable(BadLength(length.error)), [];
    }
    AcceptedIsValue(header.dataLen);
    var frameLen := headerLen + length.value;
    if frameLen > src.len {
      if frameLen > USIZE_MAX - src.len {
        return Unreadable(ExceedsAddressSpace(frameLen)), [];
      }
      src.Reserve((if frameLen < 0x4000_0000 then frameLen else 0x4000_0000) + 512);
      return NeedMore, [];
    }
    data := SplitFrame(src, header, headerLen, frameLen);
    return Complete(header, whole[headerLen..frameLen], frameLen), data;
  }

  /** Runs the checks on a frame and hands its payload to the message it belongs to. */
  method Apply(state: CodecState, header: FrameHeader, fragment: seq<byte>) returns (r: StepResult)
    ensures r == Step(state, header, fragment)
  {
    hide OpcodeOf;
    if header.rsv != 0 {
      return Reject(ReservedBits(header.rsv));
    }

    var opcode: Option<Opcode> := None;
    if header.opcode != 0 {
      opcode := OpcodeOf(header.opcode);
      if opcode.None? {
        return Reject(UnsupportedOpcode(header.opcode));
      }
      if opcode.value.IsControl() && |fragment| >= 126 {
        return Reject(ControlTooLong(|fragment|));
      }
    }

    if state.Some? {
      var Partial(partialOpcode, partialData) := state.value;
      if opcode.Some? {
        if header.fin && opcode.value.IsControl() {
          return Emit(opcode.value, fragment, state);
        }
        return Reject(NotAContinuation(opcode.value));
      }
      partialData := partialData + fragment;
      if header.fin {
        return Emit(partialOpcode, partialData, None);
      }
      return Continue(Some(Partial(partialOpcode, partialData)));
    } else if opcode.Some? {
      if header.fin {
        return Emit(opcode.value, fragment, None);
      }
      if opcode.value.IsControl() {
        return Reject(FragmentedControl);
      }
      return Continue(Some(Partial(opcode.value, fragment)));
    }
    return Reject(UnexpectedContinuation);
  }

  /** One turn of the decoding loop on the buffer itself. */
  method TakeTurn(state: CodecState, src: BytesMut) returns (t: Turned)
    requires src.Valid()
    modifies src, src.mem
    ensures src.Valid() && (src.mem == old(src.mem) || fresh(src.mem))
    ensures t == Turn(state, old(src.Contents()))
    ensures src.Contents() == if t.Stop? then t.outcome.rest else t.rest
    ensures t.Stop? && t.outcome.NotYet? ==> src.cap >= src.len + RoomFor(src.Contents())
  {
    hide ReadFrame, Unmasked, Step, New, RoomFor;
    var read, fragment := TakeFrame(src);
    if read.NeedMore? {
      return Stop(NotYet(state, src.Contents()));
    } else if read.Unreadable? {
      return Stop(Fail(read.error, None, src.Contents()));
    }
    var step := Apply(state, read.header, fragment);
    match step {
      case Reject(e) =>
        return Stop(Fail(e, None, src.Contents()));
      case Continue(next) =>
        return Again(next, src.Contents());
      case Emit(opcode, data, next) =>
        var message := New(opcode, data);
        if message.Err? {
          return Stop(Fail(BadMessage(message.error), next, src.Contents()));
        }
        return Stop(Item(message.value, next, src.Contents()));
    }
  }

  /** What a call to `decode` returns for an outcome. */
  function Reported(o: CodecOutcome): Result<Option<Message>, CodecError> {
    match o
    case NotYet(_, _) => Ok(None)
    case Item(m, _, _) => Ok(Some(m))
    case Fail(e, _, _) => Err(e)
  }

  class MessageCodec {
    var interruptedMessage: CodecState
    const useMask: bool

    constructor (useMask: bool)
      ensures interruptedMessage == None && this.useMask == useMask
    {
      this.useMask := useMask;
      interruptedMessage := None;
    }

    /** A codec for a client, which masks what it encodes. */
    constructor Client()
      ensures interruptedMessage == None && useMask
    {
      useMask := true;
      interruptedMessage := None;
    }

    /** A codec for a server, which does not. */
    constructor Server()
      ensures interruptedMessage == None && !useMask
    {
      useMask := false;
      interruptedMessage := None;
    }

    /** Takes at most one message from the front of `src`; the frames it consumed leave the buffer. */
    method Decode(src: BytesMut) returns (r: Result<Option<Message>, CodecError>)
      requires src.Valid()
      modifies this, src, src.mem
      ensures src.Valid() && (src.mem == old(src.mem) || fresh(src.mem))
      ensures
        var o := Decoded(old(interruptedMessage), old(src.Contents()));
        interruptedMessage == o.state && src.Contents() == o.rest && r == Reported(o)
      ensures r == Ok(None) ==> src.cap >= src.len + RoomFor(src.Contents())
    {
      hide Turn, RoomFor;
      var state := interruptedMessage;
      interruptedMessage := None;
      ghost var o := Decoded(state, src.Contents());
      while true
        invariant src.Valid() && (src.mem == old(src.mem) || fresh(src.mem))
        invariant interruptedMessage == None
        invariant Decoded(state, src.Contents()) == o
        decreases src.len
      {
        var turned := TakeTurn(state, src);
        match turned {
          case Again(next, _) =>
            state := next;
          case Stop(outcome) =>
            interruptedMessage := outcome.state;
            return Reported(outcome);
        }
      }
    }

    /** Appends the one frame that carries `item`; `random` is the mask drawn if this codec masks. */
    method Encode(item: Message, random: bv32, dst: BytesMut)
      requires dst.Valid() && |item.data| < TWO_TO_THE_63
      modifies dst, dst.mem
      ensures dst.Valid() && (dst.mem == old(dst.mem) || fresh(dst.mem))
      ensures dst.Contents() == old(dst.Contents()) + Encoded(item, if useMask then Some(random) else None)
      ensures dst.Contents()[..old(dst.len)] == old(dst.Contents())
      ensures CarriedBy(item, if useMask then Some(random) else None, dst.Contents()[old(dst.len)..])
    {
      hide HeaderBytes, Masked, WordBytes, Header, CarriedBy;
      EncodedIsCarrier(item, if useMask then Some(random) else None);
      var mask: Option<bv32> := if useMask then Some(random) else None;
      var header := Header(item, mask);
      HeaderMask(item, mask);
      WriteToBytes(header, dst);
      if mask.Some? {
        PutMasked(dst, item.data, mask.value);
      } else {
        dst.PutSlice(item.data);
      }
    }
  }

  /** Exposes spare bytes at the end of `dst`, with whatever they hold, and masks `data` into them. */
  method PutMasked(dst: BytesMut, data: seq<byte>, mask: bv32)
    requires dst.Valid()
    modifies dst, dst.mem
    ensures dst.Valid() && (dst.mem == old(dst.mem) || fresh(dst.mem))
    ensures dst.Contents() == old(dst.Contents()) + Masked(data, WordBytes(mask))
  {
    hide Masked, WordBytes, Splice;
    var offset := dst.len;
    var dataAddress: nat :| true;
    dst.Reserve(|data|);
    SpliceAfter(dst.mem[..], dst.start, dst.start + offset, Masked(data, WordBytes(mask)));
    dst.SetLen(offset + |data|);
    MaskSliceCopy(dst.mem, dst.base, dst.start + offset, dst.start + dst.len, data, dataAddress, mask);
  }

  lemma HeaderMask(m: Message, mask: Option<bv32>)
    requires |m.data| < TWO_TO_THE_63
    ensures Header(m, mask).mask == mask
  {
  }
}
