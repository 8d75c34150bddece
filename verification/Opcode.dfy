/** The opcodes of complete messages. */
module Opcodes {
  import opened Bytes
  import opened Wrappers

  datatype Opcode = Text | Binary | Close | Ping | Pong {
    predicate IsText() {
      Text?
    }

    predicate IsControl() {
      Close? || Ping? || Pong?
    }

    function ToByte(): byte {
      match this
      case Text => 1
      case Binary => 2
      case Close => 8
      case Ping => 9
      case Pong => 10
    }
  }

  function OpcodeOf(b: byte): (opcode: Option<Opcode>)
    ensures forall o: Opcode :: opcode == Some(o) <==> b == o.ToByte()
  {
    if b == 1 then Some(Text)
    else if b == 2 then Some(Binary)
    else if b == 8 then Some(Close)
    else if b == 9 then Some(Ping)
    else if b == 10 then Some(Pong)
    else None
  }
}
