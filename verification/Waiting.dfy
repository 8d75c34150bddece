/**
  When the decoder waits for more bytes: exactly while the header is incomplete, or the buffer is the start of a frame
  whose length is right; and when it is bound to be disappointed.
 */
module Waiting {
  import opened Bytes
  import opened Wrappers
  import opened Decoders
  import opened Frame
  import opened Messages
  import opened Mask
  import opened Codec
  import opened Streams
  import opened Wire

  /** `rest` does not hold all of the header that its second byte announces. */
  ghost predicate HeaderIncomplete(rest: seq<byte>) {
    |rest| < 2 || |rest| < AnnouncedLen(rest[1])
  }

  /** With `b` after it, `rest` is the frame `f`, whose length is right. */
  ghost predicate Completes(rest: seq<byte>, f: WireFrame, b: seq<byte>) {
    b != [] && f.Valid() && LengthRight(f) && rest + b == f.ToBytes()
  }

  ghost predicate CanBecomeFrame(rest: seq<byte>) {
    exists f: WireFrame, b: seq<byte> :: Completes(rest, f, b)
  }

  /** The header is incomplete, or the frame is, and the address space could hold another buffer of its length. */
  ghost predicate Waits(rest: seq<byte>) {
    || HeaderIncomplete(rest)
    || exists f: WireFrame, b: seq<byte> :: Completes(rest, f, b) && |rest| + |f.ToBytes()| <= USIZE_MAX
  }

  // ---------- the decoder waits exactly then ----------

  lemma WaitsForHeader(rest: seq<byte>)
    ensures HeaderIncomplete(rest) <==> ParseSlice(rest) == None
  {
    ParseWaits(rest);
    hide ParseSlice, AnnouncedLen;
  }

  /** A frame of the right length that `rest` is the start of. */
  lemma FrameAhead(rest: seq<byte>) returns (f: WireFrame, b: seq<byte>)
    requires ParseSlice(rest).Some? && ReadFrame(rest).NeedMore?
    ensures Completes(rest, f, b) && |rest| + |f.ToBytes()| <= USIZE_MAX
  {
    hide ParseSlice, HeaderBytes, HeaderLen, Fits, Unmasked, LengthRight, TryU64;
    var (h, n) := ParseSlice(rest).value;
    var len := TryUsize(h.dataLen).value;
    HeaderBytesOfParse(rest);
    b := seq(n + len - |rest|, _ => 0);
    var payload := rest[n..] + b;
    f := WireFrame(h, Unmasked(h, payload));
    UnmaskedTwice(h, payload);
    AcceptedIsValue(h.dataLen);
    CanonicalIffTryUsize(f);
    assert rest + b == rest[..n] + payload;
  }

  lemma WaitsForFrame(rest: seq<byte>, f: WireFrame, b: seq<byte>)
    requires ParseSlice(rest).Some? && Completes(rest, f, b) && |rest| + |f.ToBytes()| <= USIZE_MAX
    ensures ReadFrame(rest).NeedMore?
  {
    hide ParseSlice, HeaderBytes, HeaderLen, Fits, Unmasked, LengthRight, TryU64;
    ParseStable(rest, b);
    ParseOfHeaderBytes(f.header, Unmasked(f.header, f.data));
    CanonicalIffTryUsize(f);
    AcceptedIsValue(f.header.dataLen);
  }

  lemma ReadFrameWaits(rest: seq<byte>)
    ensures ReadFrame(rest).NeedMore? <==> Waits(rest)
  {
    hide ParseSlice, HeaderIncomplete, Completes, TryU64;
    WaitsForHeader(rest);
    if ParseSlice(rest).Some? {
      if ReadFrame(rest).NeedMore? {
        var f, b := FrameAhead(rest);
      }
      if Waits(rest) {
        var f: WireFrame, b: seq<byte> :| Completes(rest, f, b) && |rest| + |f.ToBytes()| <= USIZE_MAX;
        WaitsForFrame(rest, f, b);
      }
    }
  }

  /** Faced with `rest`, the decoder waits for more bytes and keeps all it has, exactly if `Waits(rest)`. */
  lemma DecoderWaits(state: CodecState, rest: seq<byte>)
    ensures Decoded(state, rest) == NotYet(state, rest) <==> Waits(rest)
  {
    hide ReadFrame, Waits, Step, Unmasked, New;
    ReadFrameWaits(rest);
  }

  /** In a buffer of at most 2^63 - 14 bytes the address space does not matter. */
  lemma WaitsWhenShort(rest: seq<byte>)
    requires |rest| <= MAX_BUFFER
    ensures Waits(rest) <==> HeaderIncomplete(rest) || CanBecomeFrame(rest)
  {
    hide HeaderIncomplete, Completes;
    forall f: WireFrame, b: seq<byte> | Completes(rest, f, b)
      ensures |rest| + |f.ToBytes()| <= USIZE_MAX
    {
      FrameSize(rest, f, b);
    }
  }

  lemma FrameSize(rest: seq<byte>, f: WireFrame, b: seq<byte>)
    requires Completes(rest, f, b)
    ensures |f.ToBytes()| <= MAX_HEADER + (TWO_TO_THE_63 - 1)
  {
    hide HeaderBytes, Unmasked, Fits;
  }

  // ---------- a length in the wrong form is refused at once ----------

  /** As soon as a header is complete whose length is in the wrong form or too long, it is refused, all bytes kept. */
  lemma BadLengthRefusedAtOnce(state: CodecState, h: FrameHeader, more: seq<byte>)
    requires Fits(h) && TryUsize(h.dataLen).Err?
    ensures
      var src := HeaderBytes(h) + more;
      Decoded(state, src) == Fail(BadLength(TryUsize(h.dataLen).error), None, src)
  {
    hide ParseSlice, HeaderBytes, HeaderLen, Fits, TryU64;
    ParseOfHeaderBytes(h, more);
  }

  // ---------- waiting in vain ----------

  /** The length digits of an incomplete header, as far as they have arrived. */
  ghost function DigitsSoFar(rest: seq<byte>): (d: seq<byte>)
    requires |rest| >= 2
    ensures |d| <= AnnouncedDigits(rest[1])
  {
    var k := AnnouncedDigits(rest[1]);
    if |rest| < 2 + k then rest[2..] else rest[2..2 + k]
  }

  /** The shortest and the longest payload for which a length in `k` digits is right. */
  function Shortest(k: nat): nat {
    if k == 2 then 126 else 65536
  }

  function Longest(k: nat): nat {
    if k == 2 then 65535 else 0x7fff_ffff_ffff_ffff
  }

  /** Some number that starts with the digits so far is a right length for its form. */
  ghost predicate LengthStillOpen(rest: seq<byte>) {
    |rest| >= 2 ==>
      var k, d := AnnouncedDigits(rest[1]), DigitsSoFar(rest);
      k > 0 ==>
        && ReadBigEndian(d) * Pow256(k - |d|) <= Longest(k)
        && Shortest(k) < (ReadBigEndian(d) + 1) * Pow256(k - |d|)
  }

  lemma HeaderNumbers(h: FrameHeader)
    requires Fits(h)
    ensures
      var s := HeaderBytes(h);
      && AnnouncedDigits(s[1]) == |LengthBytes(h.dataLen)| && AnnouncedLen(s[1]) == HeaderLen(h)
      && s[2..2 + |LengthBytes(h.dataLen)|] == LengthBytes(h.dataLen)
      && (h.dataLen.Small? ==> LengthValue(h.dataLen) == ToInt(s[1]) % 128)
  {
    hide FirstByte, SecondByte, LengthBytes, WordBytes, ToInt, FourDigits, FitsRsv, FitsOpcode;
    HeaderBytesLaidOut(h);
  }

  lemma DigitsAreValue(len: DataLength)
    ensures LengthBytes(len) != [] ==> ReadBigEndian(LengthBytes(len)) == LengthValue(len)
  {
    hide ReadBigEndian, WriteBigEndian, Pow256, ToInt;
    PowersOf256();
    match len
    case Small(_) =>
    case Medium(n) => ReadOfWriteBigEndian(n, 2);
    case Large(n) => ReadOfWriteBigEndian(n, 8);
  }

  lemma DigitsOfStart(rest: seq<byte>, s: seq<byte>, digits: seq<byte>)
    requires 2 <= |rest| <= |s| && rest == s[..|rest|]
    requires |digits| == AnnouncedDigits(rest[1]) && 2 + |digits| <= |s| && s[2..2 + |digits|] == digits
    ensures DigitsSoFar(rest) == digits[..|DigitsSoFar(rest)|]
  {
    hide AnnouncedDigits;
    var d := DigitsSoFar(rest);
    assert forall i :: 0 <= i < |d| ==> d[i] == s[2..2 + |digits|][i];
  }

  /** The length of a frame that an incomplete header becomes is one of those left open. */
  lemma OpenWhenCompleted(rest: seq<byte>, f: WireFrame, b: seq<byte>)
    requires HeaderIncomplete(rest) && Completes(rest, f, b)
    ensures LengthStillOpen(rest)
  {
    hide HeaderBytes, LengthBytes, LengthValue, Fits, Unmasked, ReadBigEndian, Pow256, ToInt;
    hide AnnouncedDigits, AnnouncedLen, DigitsSoFar;
    if |rest| >= 2 && AnnouncedDigits(rest[1]) > 0 {
      var s, digits := HeaderBytes(f.header), LengthBytes(f.header.dataLen);
      HeaderNumbers(f.header);
      assert rest == f.ToBytes()[..|rest|];
      assert rest[1] == s[1];
      assert rest == s[..|rest|];
      DigitsOfStart(rest, s, digits);
      DigitsAreValue(f.header.dataLen);
      PrefixBounds(digits, |DigitsSoFar(rest)|);
      RightLengthInRange(f);
    }
  }

  lemma RightLengthInRange(f: WireFrame)
    requires f.Valid() && LengthRight(f) && LengthBytes(f.header.dataLen) != []
    ensures
      var k := |LengthBytes(f.header.dataLen)|;
      Shortest(k) <= LengthValue(f.header.dataLen) <= Longest(k)
  {
    hide LengthBytes, Fits;
  }

  /** A header of the announced length that `rest` is the start of, for a right length. */
  lemma CompletedHeader(rest: seq<byte>) returns (s: seq<byte>)
    requires |rest| >= 2 && HeaderIncomplete(rest) && LengthStillOpen(rest)
    ensures |s| == AnnouncedLen(rest[1]) && s[..|rest|] == rest
    ensures
      var k := AnnouncedDigits(rest[1]);
      k > 0 ==> Shortest(k) <= ReadBigEndian(s[2..2 + k]) <= Longest(k)
  {
    hide ReadBigEndian, WriteBigEndian, Pow256, ToInt;
    var k, d := AnnouncedDigits(rest[1]), DigitsSoFar(rest);
    var total := AnnouncedLen(rest[1]);
    if k == 0 {
      s := rest + seq(total - |rest|, _ => 0);
    } else {
      var low := ReadBigEndian(d) * Pow256(k - |d|);
      var n := if low < Shortest(k) then Shortest(k) else low;
      Pow256Positive(ReadBigEndian(d), k - |d|);
      PrefixDigits(n, k, d);
      PowersOf256();
      ReadOfWriteBigEndian(n, k);
      var digits := WriteBigEndian(n, k);
      if |rest| < 2 + k {
        s := rest[..2] + digits + seq(total - 2 - k, _ => 0);
        assert rest == rest[..2] + d;
        assert s[..|rest|] == rest[..2] + digits[..|d|];
      } else {
        s := rest + seq(total - |rest|, _ => 0);
        assert digits == d;
      }
      assert s[2..2 + k] == digits;
    }
  }

  lemma Pow256Positive(r: nat, k: nat)
    ensures r * Pow256(k) < (r + 1) * Pow256(k)
  {
    assert (r + 1) * Pow256(k) == r * Pow256(k) + Pow256(k);
  }

  /** A complete header whose length is right starts a frame. */
  lemma FrameOfHeader(s: seq<byte>) returns (f: WireFrame)
    requires |s| >= 2 && |s| == AnnouncedLen(s[1])
    requires
      var k := AnnouncedDigits(s[1]);
      k > 0 ==> Shortest(k) <= ReadBigEndian(s[2..2 + k]) <= Longest(k)
    ensures f.Valid() && LengthRight(f) && HeaderBytes(f.header) == s
  {
    hide HeaderBytes, LengthBytes, ReadBigEndian, ParseSlice, FitsRsv, FitsOpcode, ToInt;
    ParseWaits(s);
    var h := ParseSlice(s).value.0;
    HeaderBytesOfParse(s);
    HeaderNumbers(h);
    DigitsAreValue(h.dataLen);
    assert s[..|s|] == s;
    f := WireFrame(h, seq(LengthValue(h.dataLen), _ => 0));
    LengthBytesSizes(h.dataLen);
  }

  lemma LengthBytesSizes(len: DataLength)
    ensures |LengthBytes(len)| == 0 <==> len.Small?
    ensures |LengthBytes(len)| == 2 <==> len.Medium?
    ensures |LengthBytes(len)| == 8 <==> len.Large?
  {
  }

  /** While its header is incomplete, a buffer can become a frame exactly if some right length is still open. */
  lemma IncompleteCanBecomeFrame(rest: seq<byte>)
    requires HeaderIncomplete(rest)
    ensures CanBecomeFrame(rest) <==> LengthStillOpen(rest)
  {
    hide HeaderIncomplete, Completes, LengthStillOpen, HeaderBytes;
    forall f: WireFrame, b: seq<byte> | Completes(rest, f, b)
      ensures LengthStillOpen(rest)
    {
      OpenWhenCompleted(rest, f, b);
    }
    if LengthStillOpen(rest) {
      var f, b := CompletionOfIncomplete(rest);
    }
  }

  lemma CompletionOfIncomplete(rest: seq<byte>) returns (f: WireFrame, b: seq<byte>)
    requires HeaderIncomplete(rest) && LengthStillOpen(rest)
    ensures Completes(rest, f, b)
  {
    hide HeaderBytes, LengthRight, Fits, Unmasked, LengthStillOpen, ReadBigEndian, AnnouncedLen, AnnouncedDigits;
    var s: seq<byte>;
    if |rest| < 2 {
      s := (if rest == [] then [0] else rest) + [0];
      SmallestHeader();
    } else {
      s := CompletedHeader(rest);
    }
    f := FrameOfHeader(s);
    b := f.ToBytes()[|rest|..];
    assert f.ToBytes()[..|s|] == s;
    assert rest == f.ToBytes()[..|rest|];
  }

  lemma SmallestHeader()
    ensures AnnouncedLen(0) == 2 && AnnouncedDigits(0) == 0
  {
    ToIntEnds();
  }

  lemma VainNumbers()
    ensures AnnouncedLen(0x7F) == 10 && AnnouncedDigits(0x7F) == 8 && ToInt(0x80) == 128
  {
  }

  lemma WaitsIfIncomplete(rest: seq<byte>)
    ensures HeaderIncomplete(rest) ==> Waits(rest)
  {
  }

  /**
    So the decoder can wait in vain, for the rest of a header that no rest can make right: three bytes that announce a
    payload of at least 2^63 bytes are not refused until the header is complete.
   */
  lemma WaitsInVain(state: CodecState)
    ensures
      var rest := [0x82, 0x7F, 0x80];
      Decoded(state, rest) == NotYet(state, rest) && !CanBecomeFrame(rest)
  {
    hide Waits, CanBecomeFrame, Decoded;
    var rest: seq<byte> := [0x82, 0x7F, 0x80];
    VainNumbers();
    assert DigitsSoFar(rest) == [0x80];
    assert ReadBigEndian([0x80]) == 128 by {
      assert [0x80 as byte][..0] == [];
    }
    assert Pow256(7) == 0x100_0000_0000_0000;
    DecoderWaits(state, rest);
    WaitsIfIncomplete(rest);
    IncompleteCanBecomeFrame(rest);
  }
}
