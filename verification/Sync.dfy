/**
  The synchronous driver: it reads a byte stream in pieces of any size into a buffer, offers the buffer to a decoder,
  and hands out items; and it writes encoded items to the stream.
 */
module Sync {
  import opened Bytes
  import opened Wrappers
  import opened Decoders

  // ---------- the transport ----------

  /** A connected byte stream. How much each read returns is up to it, and an unreliable one may fail at any call. */
  class Stream {
    const reliable: bool
    var input: seq<byte>       // what the peer has sent that has not been read
    var output: seq<byte>      // what has been written
    ghost var asked: seq<nat>  // for each read so far, the number of bytes that were left to read
    ghost var failed: nat      // how many reads and writes have failed

    constructor (reliable: bool, input: seq<byte>)
      ensures this.reliable == reliable && this.input == input
      ensures output == [] && asked == [] && failed == 0
    {
      this.reliable, this.input := reliable, input;
      output, asked, failed := [], [], 0;
    }

    /** Reads into the slice `lo..hi` of `buf`: some bytes if any are left, none at the end of the stream. */
    method Read(buf: array<byte>, lo: nat, hi: nat) returns (r: Option<nat>)
      requires lo < hi <= buf.Length
      modifies `input, `asked, `failed, buf
      ensures asked == old(asked) + [|old(input)|]
      ensures failed == old(failed) + if r.None? then 1 else 0
      ensures r.None? ==> !reliable && input == old(input)
      ensures r.Some? ==> r.value <= hi - lo && r.value <= |old(input)|
      ensures r.Some? ==> (r.value == 0 <==> old(input) == [])
      ensures r.Some? ==> buf[lo..lo + r.value] == old(input)[..r.value] && input == old(input)[r.value..]
      ensures forall i :: 0 <= i < buf.Length && !(lo <= i < hi) ==> buf[i] == old(buf[i])
    {
      asked := asked + [|input|];
      var works: bool :| reliable ==> works;
      if !works {
        failed := failed + 1;
        return None;
      }
      var most: nat := if |input| < hi - lo then |input| else hi - lo;
      assert most == 0 <==> input == [];
      var n: nat := 0;
      if most > 0 {
        n :| 1 <= n <= most;
      }
      var got := input[..n];
      CopyFromSlice(buf, lo, got);
      ghost var after := buf[..];
      assert buf[lo..lo + n] == after[lo..lo + n] == got;
      forall i | 0 <= i < buf.Length && !(lo <= i < hi)
        ensures buf[i] == old(buf[i])
      {
        assert buf[i] == after[i] == old(buf[..])[i];
      }
      input := input[n..];
      return Some(n);
    }

    method WriteAll(data: seq<byte>) returns (ok: bool)
      modifies `output, `failed
      ensures failed == old(failed) + if ok then 0 else 1
      ensures ok ==> output == old(output) + data
      ensures !ok ==> !reliable && old(output) <= output <= old(output) + data
    {
      var n: nat :| n <= |data| && (reliable ==> n == |data|);
      output := output + data[..n];
      ok := n == |data|;
      if !ok {
        failed := failed + 1;
      }
    }
  }

  // ---------- decoders under the driver ----------

  ghost predicate IsSuffix(rest: seq<byte>, whole: seq<byte>) {
    |rest| <= |whole| && rest == whole[|whole| - |rest|..]
  }

  /** The decoder takes bytes from the front of its buffer and nowhere else. */
  ghost predicate TakesFromFront<S(!new), T, E>(decode: Decoder<S, T, E>) {
    forall s: S, a: seq<byte> :: TakesFromFrontAt(decode, s, a)
  }

  ghost predicate TakesFromFrontAt<S, T, E>(decode: Decoder<S, T, E>, s: S, a: seq<byte>) {
    IsSuffix(decode(s, a).rest, a)
  }

  /** Whatever comes next, a decoder in state `s` with `a` buffered and one in state `t` with `b` will agree. */
  ghost predicate SameFuture<S, T, E>(decode: Decoder<S, T, E>, s: S, a: seq<byte>, t: S, b: seq<byte>) {
    forall more: seq<byte> :: decode(s, a + more) == decode(t, b + more)
  }

  lemma SameFutureItself<S, T, E>(decode: Decoder<S, T, E>, s: S, a: seq<byte>)
    ensures SameFuture(decode, s, a, s, a)
  {
  }

  lemma SameFutureNow<S, T, E>(decode: Decoder<S, T, E>, s: S, a: seq<byte>, t: S, b: seq<byte>)
    requires SameFuture(decode, s, a, t, b)
    ensures decode(s, a) == decode(t, b)
  {
    assert decode(s, a + []) == decode(t, b + []);
    assert a + [] == a && b + [] == b;
  }

  lemma SameFutureExtended<S, T, E>(decode: Decoder<S, T, E>, s: S, a: seq<byte>, t: S, b: seq<byte>, d: seq<byte>)
    requires SameFuture(decode, s, a, t, b)
    ensures SameFuture(decode, s, a + d, t, b + d)
  {
    forall more: seq<byte>
      ensures decode(s, a + d + more) == decode(t, b + d + more)
    {
      assert decode(s, a + (d + more)) == decode(t, b + (d + more));
      assert a + d + more == a + (d + more) && b + d + more == b + (d + more);
    }
  }

  lemma SameFutureAfterNotYet<S(!new), T, E>(
    decode: Decoder<S, T, E>, final: E -> bool, s: S, a: seq<byte>, t: S, b: seq<byte>)
    requires ChunkIndependent(decode, final) && SameFuture(decode, s, a, t, b)
    requires decode(s, a).NotYet?
    ensures SameFuture(decode, decode(s, a).state, decode(s, a).rest, t, b)
  {
    forall more: seq<byte>
      ensures decode(decode(s, a).state, decode(s, a).rest + more) == decode(t, b + more)
    {
      assert ChunkIndependentAt(decode, final, s, a, more);
      assert decode(s, a + more) == decode(t, b + more);
    }
  }

  /** An item, or a final error, found in the bytes read so far is found in the whole stream. */
  lemma FoundInWhole<S(!new), T, E>(
    decode: Decoder<S, T, E>, final: E -> bool, s: S, a: seq<byte>, t: S, b: seq<byte>, more: seq<byte>)
    requires ChunkIndependent(decode, final) && SameFuture(decode, s, a, t, b)
    requires decode(s, a).Item? || (decode(s, a).Fail? && final(decode(s, a).error))
    ensures decode(t, b + more) == Followed(decode(s, a), more)
  {
    assert ChunkIndependentAt(decode, final, s, a, more);
    assert decode(s, a + more) == decode(t, b + more);
  }

  // ---------- the driver ----------

  datatype Received<T, E> =
    | Got(item: T)
    | Ended
    | DecodeError(error: E)
    | BytesRemaining  // the stream ended inside an item
    | ReadError

  class Framed<S(!new), T, E> {
    const stream: Stream
    const decode: Decoder<S, T, E>
    var codec: S
    const readBuf: BytesMut
    const writeBuf: BytesMut

    ghost predicate Valid()
      reads this, readBuf, writeBuf
    {
      readBuf.Valid() && writeBuf.Valid() && readBuf != writeBuf && readBuf.mem != writeBuf.mem
    }

    /** The bytes this driver has yet to decode: those buffered, then those still in the stream. */
    function Ahead(): seq<byte>
      requires readBuf.Valid()
      reads this, stream, readBuf, readBuf.mem
    {
      readBuf.Contents() + stream.input
    }

    constructor (stream: Stream, decode: Decoder<S, T, E>, codec: S)
      ensures Valid() && fresh(readBuf) && fresh(writeBuf) && fresh(readBuf.mem) && fresh(writeBuf.mem)
      ensures this.stream == stream && this.decode == decode && this.codec == codec
      ensures readBuf.Contents() == [] && readBuf.cap == 0
    {
      this.stream, this.decode, this.codec := stream, decode, codec;
      readBuf := new BytesMut();
      writeBuf := new BytesMut();
    }

    /** Puts a new driver around the parts of this one that is about to be dropped. */
    constructor Around(stream: Stream, decode: Decoder<S, T, E>, codec: S, readBuf: BytesMut, writeBuf: BytesMut)
      requires readBuf.Valid() && writeBuf.Valid() && readBuf != writeBuf && readBuf.mem != writeBuf.mem
      ensures Valid() && this.stream == stream && this.decode == decode && this.codec == codec
      ensures this.readBuf == readBuf && this.writeBuf == writeBuf
    {
      this.stream, this.decode, this.codec := stream, decode, codec;
      this.readBuf, this.writeBuf := readBuf, writeBuf;
    }

    /** Goes on with another codec, which sees exactly the bytes that the old one did not consume. */
    method ReplaceCodec<S2(!new), T2, E2>(decode: Decoder<S2, T2, E2>, codec: S2) returns (f: Framed<S2, T2, E2>)
      requires Valid()
      ensures fresh(f) && f.Valid() && f.decode == decode && f.codec == codec
      ensures f.stream == stream && f.readBuf == readBuf && f.writeBuf == writeBuf
      ensures f.Ahead() == Ahead()
    {
      f := new Framed.Around(stream, decode, codec, readBuf, writeBuf);
    }

    /** Encodes one item and writes all of it to the stream. */
    method Send<U>(encode: (S, U) --> seq<byte>, item: U) returns (ok: bool)
      requires Valid() && encode.requires(codec, item)
      modifies writeBuf, writeBuf.mem, stream`output, stream`failed
      ensures Valid() && (writeBuf.mem == old(writeBuf.mem) || fresh(writeBuf.mem))
      ensures stream.failed == old(stream.failed) + if ok then 0 else 1
      ensures ok ==> stream.output == old(stream.output) + encode(codec, item)
      ensures !ok ==> !stream.reliable
      ensures !ok ==> old(stream.output) <= stream.output <= old(stream.output) + encode(codec, item)
    {
      writeBuf.Truncate(0);
      writeBuf.PutSlice(encode(codec, item));
      ok := stream.WriteAll(writeBuf.Contents());
    }

    /** Offers the buffer to the codec, which may also make room in it. */
    method Decode() returns (o: Outcome<S, T, E>)
      requires Valid() && TakesFromFront(decode)
      modifies `codec, readBuf
      ensures Valid() && (readBuf.mem == old(readBuf.mem) || fresh(readBuf.mem))
      ensures o == decode(old(codec), old(readBuf.Contents()))
      ensures codec == o.state && readBuf.Contents() == o.rest
    {
      var src := readBuf.Contents();
      o := decode(codec, src);
      assert TakesFromFrontAt(decode, codec, src);
      codec := o.state;
      readBuf.Advance(|src| - |o.rest|);
      var room: nat :| true;
      readBuf.Reserve(room);
    }

    /** At the end of the stream: one more try, after which bytes left in the buffer are an error. */
    method DecodeEof() returns (r: Received<T, E>)
      requires Valid() && TakesFromFront(decode)
      modifies `codec, readBuf
      ensures Valid() && (readBuf.mem == old(readBuf.mem) || fresh(readBuf.mem))
      ensures
        var o := decode(old(codec), old(readBuf.Contents()));
        && codec == o.state && readBuf.Contents() == o.rest
        && r == match o
                case Item(m, _, _) => Got(m)
                case Fail(e, _, _) => DecodeError(e)
                case NotYet(_, rest) => if rest == [] then Ended else BytesRemaining
    {
      var o := Decode();
      match o
      case Item(m, _, _) => return Got(m);
      case Fail(e, _, _) => return DecodeError(e);
      case NotYet(_, rest) =>
        if readBuf.len == 0 {
          return Ended;
        }
        return BytesRemaining;
    }

    /** Reads once into the spare bytes of the buffer, which there must be some of. */
    method Fill() returns (r: Option<nat>)
      requires Valid() && readBuf.len < readBuf.cap
      modifies readBuf, readBuf.mem, stream`input, stream`asked, stream`failed
      ensures Valid() && readBuf.mem == old(readBuf.mem) && readBuf.cap == old(readBuf.cap)
      ensures stream.asked == old(stream.asked) + [|old(stream.input)|]
      ensures stream.failed == old(stream.failed) + if r.None? then 1 else 0
      ensures r.None? ==> !stream.reliable
      ensures r.None? ==> stream.input == old(stream.input) && readBuf.Contents() == old(readBuf.Contents())
      ensures r.Some? ==> r.value <= |old(stream.input)| && stream.input == old(stream.input)[r.value..]
      ensures r.Some? ==> readBuf.Contents() == old(readBuf.Contents()) + old(stream.input)[..r.value]
      ensures r.Some? ==> (r.value == 0 <==> old(stream.input) == [])
    {
      readBuf.ZeroSpare();
      var lo, hi := readBuf.start + readBuf.len, readBuf.start + readBuf.cap;
      r := stream.Read(readBuf.mem, lo, hi);
      if r.Some? {
        readBuf.SetLen(readBuf.len + r.value);
      }
    }

    /**
      `r` is what comes of offering the decoder, in state `s`, all of `whole` at once, and the bytes it would leave
      are those still ahead. After an error that more bytes might repair, it is what comes of offering the bytes
      taken so far; after a failed read nothing is decided and nothing is lost.
     */
    ghost predicate Explained(r: Received<T, E>, final: E -> bool, s: S, whole: seq<byte>)
      requires readBuf.Valid()
      reads this, stream, readBuf, readBuf.mem
    {
      && |stream.input| <= |whole|
      && match r
         case Got(m) => decode(s, whole) == Item(m, codec, Ahead())
         case Ended => decode(s, whole) == NotYet(codec, []) && Ahead() == []
         case BytesRemaining => decode(s, whole) == NotYet(codec, Ahead()) && Ahead() != [] && stream.input == []
         case DecodeError(e) =>
           && decode(s, whole[..|whole| - |stream.input|]) == Fail(e, codec, readBuf.Contents())
           && (final(e) ==> decode(s, whole) == Fail(e, codec, Ahead()))
         case ReadError => !stream.reliable && SameFuture(decode, codec, Ahead(), s, whole)
    }

    /** The bytes `taken` so far leave the driver where it is, with the rest of `whole` still in the stream. */
    ghost predicate Undecided(s: S, whole: seq<byte>, taken: seq<byte>)
      requires readBuf.Valid()
      reads this, stream, readBuf, readBuf.mem
    {
      taken + stream.input == whole && SameFuture(decode, codec, readBuf.Contents(), s, taken)
    }

    /** Offers the decoder what is buffered; without an answer, makes sure there is room to read more. */
    method Attempt(ghost final: E -> bool, ghost s: S, ghost whole: seq<byte>, ghost taken: seq<byte>)
      returns (r: Option<Received<T, E>>)
      requires Valid() && TakesFromFront(decode) && ChunkIndependent(decode, final)
      requires Undecided(s, whole, taken)
      modifies `codec, readBuf
      ensures Valid() && (readBuf.mem == old(readBuf.mem) || fresh(readBuf.mem))
      ensures r.None? ==> Undecided(s, whole, taken) && decode(s, taken).NotYet? && readBuf.len < readBuf.cap
      ensures r.Some? ==> Explained(r.value, final, s, whole) && r.value != ReadError
    {
      hide SameFuture, ChunkIndependent, TakesFromFront;
      ghost var a := readBuf.Contents();
      SameFutureNow(decode, codec, a, s, taken);
      if decode(codec, a).NotYet? {
        SameFutureAfterNotYet(decode, final, codec, a, s, taken);
      } else if decode(codec, a).Item? || final(decode(codec, a).error) {
        FoundInWhole(decode, final, codec, a, s, taken, stream.input);
      }
      var o := Decode();
      match o
      case Item(m, _, _) =>
        return Some(Got(m));
      case Fail(e, _, _) =>
        assert whole[..|whole| - |stream.input|] == taken;
        return Some(DecodeError(e));
      case NotYet(_, _) =>
        readBuf.Reserve(1);
        return None;
    }

    /** Reads once; at the end of the stream, or after a failed read, there is an answer. */
    method Pull(ghost final: E -> bool, ghost s: S, ghost whole: seq<byte>, ghost taken: seq<byte>)
      returns (r: Option<Received<T, E>>)
      requires Valid() && TakesFromFront(decode) && readBuf.len < readBuf.cap
      requires Undecided(s, whole, taken)
      modifies `codec, readBuf, readBuf.mem, stream`input, stream`asked, stream`failed
      ensures Valid() && (readBuf.mem == old(readBuf.mem) || fresh(readBuf.mem))
      ensures stream.asked == old(stream.asked) + [|old(stream.input)|]
      ensures stream.failed == old(stream.failed) + if r == Some(ReadError) then 1 else 0
      ensures r.None? ==> |stream.input| < |old(stream.input)| && readBuf.cap > 0
      ensures r.None? ==> Undecided(s, whole, taken + old(stream.input)[..|old(stream.input)| - |stream.input|])
      ensures r.Some? ==> Explained(r.value, final, s, whole)
    {
      hide SameFuture, TakesFromFront;
      ghost var rest, a := stream.input, readBuf.Contents();
      var n := Fill();
      if n.None? {
        SameFutureExtended(decode, codec, a, s, taken, rest);
        return Some(ReadError);
      }
      SameFutureExtended(decode, codec, a, s, taken, rest[..n.value]);
      assert taken + rest[..n.value] + stream.input == whole;
      if n.value == 0 {
        assert taken + rest[..n.value] == whole;
        SameFutureNow(decode, codec, readBuf.Contents(), s, whole);
        var last := DecodeEof();
        assert Ahead() == readBuf.Contents();
        return Some(last);
      }
      return None;
    }

    /**
      Hands out the next item, reading as much as it takes: the outcome is explained by the whole of what is ahead,
      however the stream cuts it, and no read is made while an item or an error can be decided, unless the buffer
      has no capacity at all when the call begins.
     */
    method Receive(ghost final: E -> bool) returns (r: Received<T, E>)
      requires Valid() && TakesFromFront(decode) && ChunkIndependent(decode, final)
      modifies `codec, readBuf, readBuf.mem, stream`input, stream`asked, stream`failed
      ensures Valid() && (readBuf.mem == old(readBuf.mem) || fresh(readBuf.mem))
      ensures Explained(r, final, old(codec), old(Ahead()))
      ensures old(stream.asked) <= stream.asked
      ensures stream.failed == old(stream.failed) + if r == ReadError then 1 else 0
      ensures ReadOnlyWhenUndecided(old(codec), old(Ahead()), old(stream.asked), stream.asked, old(readBuf.cap) == 0)
    {
      hide SameFuture, ChunkIndependent, TakesFromFront, ReadOnlyWhenUndecided, Explained;
      ghost var s, whole, taken := codec, Ahead(), readBuf.Contents();
      NothingReadYet(s, whole, stream.asked, readBuf.cap == 0);
      SameFutureItself(decode, codec, readBuf.Contents());
      while true
        invariant Valid() && (readBuf.mem == old(readBuf.mem) || fresh(readBuf.mem))
        invariant Undecided(s, whole, taken)
        invariant old(stream.asked) <= stream.asked
        invariant stream.failed == old(stream.failed)
        invariant readBuf.cap == 0 ==> old(readBuf.cap) == 0 && stream.asked == old(stream.asked)
        invariant ReadOnlyWhenUndecided(s, whole, old(stream.asked), stream.asked, old(readBuf.cap) == 0)
        decreases |stream.input|
      {
        var answer: Option<Received<T, E>>;
        if readBuf.cap == 0 {
          FirstRead(s, whole, stream.asked, |stream.input|);
          readBuf.Reserve(8 * 1024);
        } else {
          answer := Attempt(final, s, whole, taken);
          if answer.Some? {
            return answer.value;
          }
          UndecidedRead(s, whole, taken, stream.input, old(stream.asked), stream.asked, old(readBuf.cap) == 0);
        }
        ghost var rest := stream.input;
        answer := Pull(final, s, whole, taken);
        if answer.Some? {
          return answer.value;
        }
        taken := taken + rest[..|rest| - |stream.input|];
      }
    }

    /** Every read recorded since `before` was made when the decoder could not decide on the bytes taken until then. */
    ghost predicate ReadOnlyWhenUndecided(
      s: S, whole: seq<byte>, before: seq<nat>, after: seq<nat>, exceptFirst: bool)
    {
      forall i :: |before| <= i < |after| ==>
        after[i] <= |whole| && (decode(s, whole[..|whole| - after[i]]).NotYet? || (exceptFirst && i == |before|))
    }

    lemma NothingReadYet(s: S, whole: seq<byte>, before: seq<nat>, exceptFirst: bool)
      ensures ReadOnlyWhenUndecided(s, whole, before, before, exceptFirst)
    {
    }

    lemma FirstRead(s: S, whole: seq<byte>, before: seq<nat>, left: nat)
      requires left <= |whole|
      ensures ReadOnlyWhenUndecided(s, whole, before, before + [left], true)
    {
    }

    lemma UndecidedRead(
      s: S, whole: seq<byte>, taken: seq<byte>, rest: seq<byte>, before: seq<nat>, after: seq<nat>, exceptFirst: bool)
      requires taken + rest == whole && decode(s, taken).NotYet?
      requires ReadOnlyWhenUndecided(s, whole, before, after, exceptFirst)
      ensures ReadOnlyWhenUndecided(s, whole, before, after + [|rest|], exceptFirst)
    {
      assert whole[..|whole| - |rest|] == taken;
    }
  }
}
