/** Close codes and the decoded payload of a close message. */
module Close {
  import opened Bytes

  datatype CloseCode =
    | Normal | Away | Protocol | Unsupported | Status | Abnormal | Invalid | Policy | Size | Extension
    | Error | Restart | Again | Tls
    | Reserved(code: u16) | Iana(code: u16) | Library(code: u16) | Bad(code: u16)
  {
    function ToU16(): u16 {
      match this
      case Normal => 1000
      case Away => 1001
      case Protocol => 1002
      case Unsupported => 1003
      case Status => 1005
      case Abnormal => 1006
      case Invalid => 1007
      case Policy => 1008
      case Size => 1009
      case Extension => 1010
      case Error => 1011
      case Restart => 1012
      case Again => 1013
      case Tls => 1015
      case Reserved(code) => code
      case Iana(code) => code
      case Library(code) => code
      case Bad(code) => code
    }
  }

  function CloseCodeOf(code: u16): (c: CloseCode)
    ensures c.ToU16() == code
  {
    if code == 1000 then Normal
    else if code == 1001 then Away
    else if code == 1002 then Protocol
    else if code == 1003 then Unsupported
    else if code == 1005 then Status
    else if code == 1006 then Abnormal
    else if code == 1007 then Invalid
    else if code == 1008 then Policy
    else if code == 1009 then Size
    else if code == 1010 then Extension
    else if code == 1011 then Error
    else if code == 1012 then Restart
    else if code == 1013 then Again
    else if code == 1015 then Tls
    else if 1016 <= code <= 2999 then Reserved(code)
    else if 3000 <= code <= 3999 then Iana(code)
    else if 4000 <= code <= 4999 then Library(code)
    else Bad(code)
  }

  /** The close code that section 7.4 of RFC 6455 and its registry, as the library reads them, give each number. */
  ghost predicate Numbered(c: CloseCode, n: u16) {
    match c
    case Normal => n == 1000
    case Away => n == 1001
    case Protocol => n == 1002
    case Unsupported => n == 1003
    case Status => n == 1005
    case Abnormal => n == 1006
    case Invalid => n == 1007
    case Policy => n == 1008
    case Size => n == 1009
    case Extension => n == 1010
    case Error => n == 1011
    case Restart => n == 1012
    case Again => n == 1013
    case Tls => n == 1015
    case Reserved(code) => code == n && 1016 <= n <= 2999
    case Iana(code) => code == n && 3000 <= n <= 3999
    case Library(code) => code == n && 4000 <= n <= 4999
    case Bad(code) => code == n && (n < 1000 || n == 1004 || n == 1014 || 5000 <= n)
  }

  /** Every number has one close code, which is the one it is read as and is written as the number. */
  lemma NumberedExactly(c: CloseCode, n: u16)
    ensures Numbered(c, n) <==> CloseCodeOf(n) == c
    ensures Numbered(c, n) ==> c.ToU16() == n
  {
  }

  datatype CloseFrame = CloseFrame(code: CloseCode, reason: seq<byte>)
}
