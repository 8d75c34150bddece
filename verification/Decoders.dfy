/**
  What a streaming decoder is: a function from a saved state and a buffer to one of three outcomes,
  each with the state to save and the bytes left in the buffer.
 */
module Decoders {
  import opened Bytes

  datatype Outcome<S, T, E> =
    | NotYet(state: S, rest: seq<byte>)
    | Item(item: T, state: S, rest: seq<byte>)
    | Fail(error: E, state: S, rest: seq<byte>)

  type Decoder<!S, !T, !E> = (S, seq<byte>) -> Outcome<S, T, E>

  /** The outcome when bytes that were not looked at follow those that were. */
  function Followed<S, T, E>(o: Outcome<S, T, E>, more: seq<byte>): Outcome<S, T, E> {
    o.(rest := o.rest + more)
  }

  /**
    Where a buffer ends makes no difference to `decode`: bytes that arrive later continue what was left
    undecided and change nothing that was decided. Errors outside `final` are exempt.
   */
  ghost predicate ChunkIndependent<S(!new), T, E>(decode: Decoder<S, T, E>, final: E -> bool) {
    forall s: S, a: seq<byte>, b: seq<byte> :: ChunkIndependentAt(decode, final, s, a, b)
  }

  ghost predicate ChunkIndependentAt<S, T, E>(
    decode: Decoder<S, T, E>, final: E -> bool, s: S, a: seq<byte>, b: seq<byte>)
  {
    match decode(s, a)
    case NotYet(s1, rest) => decode(s, a + b) == decode(s1, rest + b)
    case Item(_, _, _) => decode(s, a + b) == Followed(decode(s, a), b)
    case Fail(e, _, _) => final(e) ==> decode(s, a + b) == Followed(decode(s, a), b)
  }
}
