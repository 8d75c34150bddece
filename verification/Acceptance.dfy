/**
  Which streams of frames the decoder accepts and what it makes of them, said without the decoder: by the rules
  of sections 5.2, 5.4 and 5.5 of RFC 6455 on each frame and on the frames before it.
 */
module Acceptance {
  import opened Bytes
  import opened Wrappers
  import opened Utf8
  import opened Opcodes
  import opened Frame
  import opened Messages
  import opened Codec
  import opened Streams
  import opened Wire
  import opened Waiting

  // ---------- the rules ----------

  /** The rules that concern one frame alone. */
  ghost predicate Allowed(f: WireFrame) {
    && f.header.rsv == 0
    && f.header.opcode in {0, 1, 2, 8, 9, 10}
    && LengthRight(f)
    && (f.IsControl() ==> f.header.fin && |f.data| <= MAX_CONTROL_PAYLOAD)
    && (f.header.opcode == 8 ==> f.data == [] || (|f.data| >= 2 && ValidUtf8(f.data[2..])))
  }

  /** A data message is open after `fs`: the last data frame in it is not final. */
  ghost predicate Opened(fs: seq<WireFrame>) {
    exists j: nat :: LastDataFrame(fs, j) && !fs[j].header.fin
  }

  ghost predicate LastDataFrame(fs: seq<WireFrame>, j: nat) {
    && j < |fs| && !fs[j].IsControl()
    && forall k :: j < k < |fs| ==> fs[k].IsControl()
  }

  /** The index of the last frame that starts a data message, or -1. */
  function LastStart(fs: seq<WireFrame>): (j: int)
    ensures -1 <= j < |fs|
    ensures j >= 0 ==> fs[j].header.opcode == 1 || fs[j].header.opcode == 2
    ensures forall k :: j < k < |fs| ==> fs[k].header.opcode != 1 && fs[k].header.opcode != 2
  {
    if fs == [] then -1 else
      var last := |fs| - 1;
      if fs[last].header.opcode == 1 || fs[last].header.opcode == 2 then last else LastStart(fs[..last])
  }

  /** The payloads of the data frames in `fs`, one after the other. */
  function Gathered(fs: seq<WireFrame>): seq<byte> {
    if fs == [] then [] else
      var last := |fs| - 1;
      Gathered(fs[..last]) + (if fs[last].IsControl() then [] else fs[last].data)
  }

  /** The payload so far of the data message that started last. */
  function Current(fs: seq<WireFrame>): seq<byte> {
    if LastStart(fs) < 0 then [] else Gathered(fs[LastStart(fs)..])
  }

  function CurrentOpcode(fs: seq<WireFrame>): (opcode: Opcode)
    ensures opcode.Text? || opcode.Binary?
  {
    if LastStart(fs) >= 0 && fs[LastStart(fs)].header.opcode == 1 then Text else Binary
  }

  /** The rules for frame `f` after the frames `before`. */
  ghost predicate AllowedAfter(before: seq<WireFrame>, f: WireFrame) {
    && Allowed(f)
    && (!f.IsControl() ==> (f.header.opcode == 0 <==> Opened(before)))
    && (!f.IsControl() && f.header.fin && CurrentOpcode(before + [f]).Text? ==> ValidUtf8(Current(before + [f])))
  }

  ghost predicate Acceptable(fs: seq<WireFrame>) {
    forall i :: 0 <= i < |fs| ==> AllowedAfter(fs[..i], fs[i])
  }

  /** The message that the last frame of `fs` completes, if it completes one. */
  function Completed(fs: seq<WireFrame>): seq<Message>
    requires fs != []
  {
    var f := fs[|fs| - 1];
    if !f.header.fin then []
    else if f.IsControl() then [Message(ControlOpcode(f.header.opcode), f.data)]
    else [Message(CurrentOpcode(fs), Current(fs))]
  }

  function ControlOpcode(b: byte): Opcode {
    if b == 8 then Close else if b == 9 then Ping else Pong
  }

  /** The messages completed in `fs`, in the order of the frames that complete them. */
  function Delivered(fs: seq<WireFrame>): seq<Message> {
    if fs == [] then [] else Delivered(fs[..|fs| - 1]) + Completed(fs)
  }

  ghost function HalfReceived(fs: seq<WireFrame>): CodecState {
    if Opened(fs) then Some(Partial(CurrentOpcode(fs), Current(fs))) else None
  }

  // ---------- adding a frame at the end ----------

  lemma OpenedSnoc(fs: seq<WireFrame>, f: WireFrame)
    ensures Opened(fs + [f]) <==> if f.IsControl() then Opened(fs) else !f.header.fin
  {
    var all := fs + [f];
    if f.IsControl() {
      if Opened(fs) {
        var j: nat :| LastDataFrame(fs, j) && !fs[j].header.fin;
        assert LastDataFrame(all, j) && !all[j].header.fin;
      }
      if Opened(all) {
        var j: nat :| LastDataFrame(all, j) && !all[j].header.fin;
        assert forall k :: j < k < |fs| ==> fs[k] == all[k];
        assert LastDataFrame(fs, j) && !fs[j].header.fin;
      }
    } else {
      assert LastDataFrame(all, |fs|);
    }
  }

  lemma LastStartSnoc(fs: seq<WireFrame>, f: WireFrame)
    ensures LastStart(fs + [f]) == if f.header.opcode == 1 || f.header.opcode == 2 then |fs| else LastStart(fs)
  {
    assert (fs + [f])[..|fs|] == fs;
  }

  lemma GatheredSnoc(fs: seq<WireFrame>, f: WireFrame)
    ensures Gathered(fs + [f]) == Gathered(fs) + (if f.IsControl() then [] else f.data)
  {
    assert (fs + [f])[..|fs|] == fs;
  }

  lemma CurrentAtStart(fs: seq<WireFrame>, f: WireFrame)
    requires f.header.opcode == 1 || f.header.opcode == 2
    ensures Current(fs + [f]) == f.data
    ensures CurrentOpcode(fs + [f]) == if f.header.opcode == 1 then Text else Binary
  {
    LastStartSnoc(fs, f);
    assert (fs + [f])[|fs|..] == [f] == [] + [f];
    GatheredSnoc([], f);
    assert [] + f.data == f.data;
    hide Gathered, LastStart;
  }

  lemma CurrentGrows(fs: seq<WireFrame>, f: WireFrame)
    requires f.header.opcode != 1 && f.header.opcode != 2
    ensures CurrentOpcode(fs + [f]) == CurrentOpcode(fs)
    ensures LastStart(fs) >= 0 ==> Current(fs + [f]) == Current(fs) + if f.IsControl() then [] else f.data
  {
    LastStartSnoc(fs, f);
    hide Gathered, LastStart;
    var j := LastStart(fs);
    if j >= 0 {
      assert (fs + [f])[j..] == fs[j..] + [f];
      GatheredSnoc(fs[j..], f);
    }
  }

  lemma AcceptableSnoc(fs: seq<WireFrame>, f: WireFrame)
    ensures Acceptable(fs + [f]) <==> Acceptable(fs) && AllowedAfter(fs, f)
  {
    hide AllowedAfter;
    var all := fs + [f];
    assert forall i :: 0 <= i < |fs| ==> all[..i] == fs[..i] && all[i] == fs[i];
    assert all[..|fs|] == fs && all[|fs|] == f;
    assert Acceptable(all) ==> AllowedAfter(all[..|fs|], all[|fs|]);
    if Acceptable(all) {
      forall i | 0 <= i < |fs|
        ensures AllowedAfter(fs[..i], fs[i])
      {
        assert AllowedAfter(all[..i], all[i]);
      }
    }
  }

  // ---------- the decoder follows the rules ----------

  /** The decoder's run over one more frame. */
  function Extended(run: FrameRun, f: WireFrame): FrameRun {
    match run.ending
    case Broken(e, s, left) => FrameRun(run.messages, Broken(e, s, left + [f]))
    case Between(state) =>
      match StepFrame(state, f)
      case Reject(e) => FrameRun(run.messages, Broken(e, None, LeftAt(e, [f])))
      case Continue(next) => FrameRun(run.messages, Between(next))
      case Emit(opcode, data, next) =>
        match New(opcode, data)
        case Err(e) => FrameRun(run.messages, Broken(BadMessage(e), next, []))
        case Ok(m) => FrameRun(run.messages + [m], Between(next))
  }

  lemma {:induction false} RunFramesSnoc(state: CodecState, fs: seq<WireFrame>, f: WireFrame)
    ensures RunFrames(state, fs + [f]) == Extended(RunFrames(state, fs), f)
    decreases |fs|
  {
    hide StepFrame, New;
    if fs == [] {
      assert fs + [f] == [f] && [f][1..] == [];
    } else {
      assert (fs + [f])[0] == fs[0] && (fs + [f])[1..] == fs[1..] + [f];
      match StepFrame(state, fs[0])
      case Reject(_) =>
      case Continue(next) => RunFramesSnoc(next, fs[1..], f);
      case Emit(opcode, data, next) => RunFramesSnoc(next, fs[1..], f);
    }
  }

  /** After acceptable frames, the next frame goes through exactly if the rules allow it, with the right result. */
  lemma StepFollowsRules(before: seq<WireFrame>, f: WireFrame, messages: seq<Message>)
    requires f.Valid()
    requires Opened(before) ==> LastStart(before) >= 0
    ensures
      var next := Extended(FrameRun(messages, Between(HalfReceived(before))), f);
      if AllowedAfter(before, f) then
        next == FrameRun(messages + Completed(before + [f]), Between(HalfReceived(before + [f])))
      else
        next.ending.Broken?
  {
    hide Current, CurrentOpcode, Opened, ValidUtf8, Fits, LengthValue, TryU64, LengthRight;
    CanonicalIffTryUsize(f);
    OpenedSnoc(before, f);
    if f.header.opcode == 1 || f.header.opcode == 2 {
      CurrentAtStart(before, f);
    } else {
      CurrentGrows(before, f);
      if LastStart(before) >= 0 && f.IsControl() {
        assert Current(before) + [] == Current(before);
      }
    }
    assert messages + [] == messages;
    assert (before + [f])[|before + [f]| - 1] == f;
  }

  /**
    The decoder accepts a sequence of frames if and only if the rules allow every frame in its place; then it has
    delivered exactly the messages the frames complete and holds exactly the part of the message left open.
   */
  lemma {:induction false} AcceptsExactly(fs: seq<WireFrame>)
    requires AllValid(fs)
    ensures Acceptable(fs) && Opened(fs) ==> LastStart(fs) >= 0
    ensures
      if Acceptable(fs) then RunFrames(None, fs) == FrameRun(Delivered(fs), Between(HalfReceived(fs)))
      else RunFrames(None, fs).ending.Broken?
    decreases |fs|
  {
    hide Completed, Opened, Extended, AllowedAfter, Acceptable, RunFrames, HalfReceived;
    if fs == [] {
      AcceptsNothing();
    } else {
      var before, f := fs[..|fs| - 1], fs[|fs| - 1];
      assert fs == before + [f] && f in fs;
      assert AllValid(before);
      AcceptsExactly(before);
      AcceptableSnoc(before, f);
      RunFramesSnoc(None, before, f);
      if Acceptable(before) {
        StepFollowsRules(before, f, Delivered(before));
        if AllowedAfter(before, f) {
          StaysStarted(before, f);
        }
      } else {
        BrokenStays(RunFrames(None, before), f);
      }
    }
  }

  lemma AcceptsNothing()
    ensures Acceptable([]) && !Opened([])
    ensures RunFrames(None, []) == FrameRun(Delivered([]), Between(HalfReceived([])))
  {
  }

  lemma StaysStarted(before: seq<WireFrame>, f: WireFrame)
    requires Opened(before) ==> LastStart(before) >= 0
    requires AllowedAfter(before, f)
    ensures Opened(before + [f]) ==> LastStart(before + [f]) >= 0
  {
    hide Opened, Current, CurrentOpcode;
    LastStartSnoc(before, f);
    OpenedSnoc(before, f);
  }

  lemma BrokenStays(run: FrameRun, f: WireFrame)
    requires run.ending.Broken?
    ensures
      var e := run.ending;
      Extended(run, f) == FrameRun(run.messages, Broken(e.error, e.state, e.left + [f]))
  {
  }

  /** The same of the bytes: a stream of complete frames is decoded without error exactly if the rules allow it. */
  lemma StreamAcceptedExactly(fs: seq<WireFrame>)
    requires AllValid(fs)
    ensures RunAll(None, WireBytes(fs)).ending.Waiting? <==> Acceptable(fs)
    ensures Acceptable(fs) ==> RunAll(None, WireBytes(fs)) == Run(Delivered(fs), Ending.Waiting(HalfReceived(fs), []))
  {
    AcceptsExactly(fs);
    RunAllOfFrames(None, fs, []);
    assert WireBytes(fs) + [] == WireBytes(fs);
    ReadNothing();
    RemainderWaits(HalfReceived(fs), []);
    assert Delivered(fs) + [] == Delivered(fs);
    hide *;
  }

  /**
    The same of any bytes at all: they are decoded without error exactly if the rules allow their frames and what
    follows the last complete frame is an incomplete header or the start of a frame of the right length.
   */
  lemma AnyStreamAcceptedExactly(src: seq<byte>)
    ensures
      var (fs, rest) := SplitFrames(src);
      && (RunAll(None, src).ending.Waiting? <==> Acceptable(fs) && Waits(rest))
      && (Acceptable(fs) && Waits(rest) ==>
            RunAll(None, src) == Run(Delivered(fs), Ending.Waiting(HalfReceived(fs), rest)))
  {
    hide ReadFrame, RunFrames, Acceptable, Delivered, HalfReceived, SplitFrames, Waits;
    var (fs, rest) := SplitFrames(src);
    SplitFramesJoins(src);
    AcceptsExactly(fs);
    RunAllOfFrames(None, fs, rest);
    if Acceptable(fs) {
      RemainderWaits(HalfReceived(fs), rest);
      ReadFrameWaits(rest);
      assert Delivered(fs) + [] == Delivered(fs);
    }
  }

  // ---------- the error names the rule ----------

  /** The header of `f` is right in itself. */
  ghost predicate HeaderRight(f: WireFrame) {
    && LengthRight(f) && f.header.rsv == 0 && f.header.opcode in {0, 1, 2, 8, 9, 10}
    && (f.IsControl() ==> |f.data| <= MAX_CONTROL_PAYLOAD)
  }

  /** And it is right in its place after the frames `before`. */
  ghost predicate PlacedRight(before: seq<WireFrame>, f: WireFrame) {
    HeaderRight(f) && if f.IsControl() then f.header.fin else (f.header.opcode == 0 <==> Opened(before))
  }

  /** `e` names the first rule, in the order of these cases, that frame `f` breaks after the frames `before`. */
  ghost predicate Blames(e: CodecError, before: seq<WireFrame>, f: WireFrame) {
    match e
    case BadLength(NeedlesslyMedium(n)) => f.header.dataLen.Medium? && n == |f.data| <= 125
    case BadLength(NeedlesslyLarge(n)) => f.header.dataLen.Large? && n == |f.data| <= 65535
    case BadLength(FrameTooLong(n)) => n == |f.data| >= 0x8000_0000_0000_0000
    case ReservedBits(rsv) => LengthRight(f) && f.header.rsv == rsv != 0
    case UnsupportedOpcode(code) =>
      LengthRight(f) && f.header.rsv == 0 && f.header.opcode == code && code !in {0, 1, 2, 8, 9, 10}
    case ControlTooLong(n) =>
      LengthRight(f) && f.header.rsv == 0 && f.IsControl() && n == |f.data| > MAX_CONTROL_PAYLOAD
    case FragmentedControl => HeaderRight(f) && f.IsControl() && !f.header.fin && !Opened(before)
    case NotAContinuation(opcode) =>
      && HeaderRight(f) && f.header.opcode == opcode.ToByte() && Opened(before)
      && (f.IsControl() ==> !f.header.fin)
    case UnexpectedContinuation => HeaderRight(f) && f.header.opcode == 0 && !Opened(before)
    case BadMessage(CloseTooShort) => PlacedRight(before, f) && f.header.opcode == 8 && |f.data| == 1
    case BadMessage(InvalidUtf8) =>
      && PlacedRight(before, f)
      && (|| (f.header.opcode == 8 && |f.data| >= 2 && !ValidUtf8(f.data[2..]))
          || (!f.IsControl() && f.header.fin && CurrentOpcode(before + [f]).Text? && !ValidUtf8(Current(before + [f]))))
    case ExceedsAddressSpace(_) => false
  }

  /** The state after a refusal: a close message with bad text leaves the half-received message, nothing else does. */
  ghost function StateAfter(e: CodecError, before: seq<WireFrame>, f: WireFrame): CodecState {
    if e.BadMessage? && f.IsControl() then HalfReceived(before) else None
  }

  lemma LengthErrorIsJust(before: seq<WireFrame>, f: WireFrame)
    requires f.Valid() && TryUsize(f.header.dataLen).Err?
    ensures Blames(BadLength(TryUsize(f.header.dataLen).error), before, f)
  {
    hide Opened, Current, CurrentOpcode, Fits;
  }

  lemma CheckErrorIsJust(before: seq<WireFrame>, f: WireFrame)
    requires LengthRight(f)
    ensures CheckFrame(f.header, |f.data|).Err? ==>
      Blames(CheckFrame(f.header, |f.data|).error, before, f) && !CheckFrame(f.header, |f.data|).error.BadMessage?
    ensures CheckFrame(f.header, |f.data|).Ok? ==>
      && HeaderRight(f)
      && match CheckFrame(f.header, |f.data|).value
         case None => f.header.opcode == 0 && !f.IsControl()
         case Some(o) => f.header.opcode == o.ToByte() && o.ToByte() != 0 && (f.IsControl() <==> o.IsControl())
  {
    hide Opened, Current, CurrentOpcode, LengthRight;
  }

  lemma ErrorIsJust(before: seq<WireFrame>, f: WireFrame, messages: seq<Message>)
    requires f.Valid()
    requires Opened(before) ==> LastStart(before) >= 0
    ensures
      var next := Extended(FrameRun(messages, Between(HalfReceived(before))), f);
      next.ending.Broken? ==>
        var e := next.ending.error;
        && Blames(e, before, f)
        && next == FrameRun(messages, Broken(e, StateAfter(e, before, f), LeftAt(e, [f])))
  {
    hide Current, CurrentOpcode, Opened, ValidUtf8, WireFrame.Valid, CheckFrame, TryU64, LengthRight;
    CanonicalIffTryUsize(f);
    if TryUsize(f.header.dataLen).Err? {
      LengthErrorIsJust(before, f);
    } else {
      CheckErrorIsJust(before, f);
      if f.header.opcode == 1 || f.header.opcode == 2 {
        CurrentAtStart(before, f);
      } else {
        CurrentGrows(before, f);
      }
    }
  }

  /**
    A sequence of frames that the rules do not allow is refused at the first frame that breaks one: the messages before
    it have been delivered, the error names the first rule it breaks, and the frames after it, and the frame itself if
    its length is at fault, are still to be read.
   */
  lemma {:induction false} RejectsExactly(fs: seq<WireFrame>) returns (i: nat, e: CodecError)
    requires AllValid(fs) && !Acceptable(fs)
    ensures i < |fs| && Acceptable(fs[..i]) && !AllowedAfter(fs[..i], fs[i]) && Blames(e, fs[..i], fs[i])
    ensures RunFrames(None, fs) ==
      FrameRun(Delivered(fs[..i]), Broken(e, StateAfter(e, fs[..i], fs[i]), LeftAt(e, fs[i..])))
    decreases |fs|
  {
    hide Acceptable, AllowedAfter, Delivered, RunFrames, Extended, Blames, HalfReceived, Opened, StateAfter;
    i, e := 0, FragmentedControl;
    if fs == [] {
      AcceptsNothing();
    } else {
      var before, f := fs[..|fs| - 1], fs[|fs| - 1];
      assert fs == before + [f] && f in fs;
      assert AllValid(before);
      AcceptableSnoc(before, f);
      RunFramesSnoc(None, before, f);
      AcceptsExactly(before);
      AcceptsExactly(fs);
      if Acceptable(before) {
        i := |fs| - 1;
        e := RunFrames(None, fs).ending.error;
        ErrorIsJust(before, f, Delivered(before));
        assert fs[i..] == [f];
      } else {
        i, e := RejectsExactly(before);
        assert fs[..i] == before[..i] && fs[i] == before[i];
        assert fs[i..] == before[i..] + [f];
        BrokenStays(RunFrames(None, before), f);
        assert LeftAt(e, fs[i..]) == LeftAt(e, before[i..]) + [f];
      }
    }
  }

  /** The same of the bytes. */
  lemma StreamRejectedExactly(fs: seq<WireFrame>, rest: seq<byte>) returns (i: nat, e: CodecError)
    requires AllValid(fs) && !Acceptable(fs)
    ensures i < |fs| && Acceptable(fs[..i]) && !AllowedAfter(fs[..i], fs[i]) && Blames(e, fs[..i], fs[i])
    ensures
      var left := WireBytes(LeftAt(e, fs[i..])) + rest;
      RunAll(None, WireBytes(fs) + rest) == Run(Delivered(fs[..i]), Failed(e, StateAfter(e, fs[..i], fs[i]), left))
  {
    i, e := RejectsExactly(fs);
    RunAllOfFrames(None, fs, rest);
    hide *;
  }

  /** `e` blames the length announced by a complete header that `rest` begins with. */
  ghost predicate BlamesLength(e: CodecError, rest: seq<byte>, h: FrameHeader) {
    && Fits(h) && HeaderBytes(h) <= rest
    && match TryUsize(h.dataLen)
       case Err(wrong) => e == BadLength(wrong)
       case Ok(n) => e == ExceedsAddressSpace(HeaderLen(h) + n) && |rest| + (HeaderLen(h) + n) > USIZE_MAX
  }

  /** And when the frames are all right but what follows them is not waited for, the fault is a length. */
  lemma RemainderRejectedExactly(src: seq<byte>) returns (h: FrameHeader, e: CodecError)
    requires Acceptable(SplitFrames(src).0) && !Waits(SplitFrames(src).1)
    ensures
      var (fs, rest) := SplitFrames(src);
      BlamesLength(e, rest, h) && RunAll(None, src) == Run(Delivered(fs), Failed(e, None, rest))
  {
    var (fs, rest) := SplitFrames(src);
    SplitFramesJoins(src);
    AcceptsExactly(fs);
    RunAllOfFrames(None, fs, rest);
    ReadFrameWaits(rest);
    h, e := LengthAtFault(HalfReceived(fs), rest);
    assert Delivered(fs) + [] == Delivered(fs);
    hide *;
  }

  lemma LengthAtFault(state: CodecState, rest: seq<byte>) returns (h: FrameHeader, e: CodecError)
    requires ReadFrame(rest).Unreadable?
    ensures BlamesLength(e, rest, h) && RunAll(state, rest) == Run([], Failed(e, None, rest))
  {
    hide ParseSlice, HeaderBytes, HeaderLen, Fits, TryU64;
    HeaderBytesOfParse(rest);
    ParseLengthIs(rest);
    h := ParseSlice(rest).value.0;
    e := ReadFrame(rest).error;
  }

  lemma ParseLengthIs(rest: seq<byte>)
    requires ParseSlice(rest).Some?
    ensures ParseSlice(rest).value.1 == HeaderLen(ParseSlice(rest).value.0)
  {
    HeaderBytesOfParse(rest);
    hide *;
  }
}
