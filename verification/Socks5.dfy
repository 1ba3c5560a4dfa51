/**
 The SOCKS5 client handshake (sections 3 to 6 of RFC 1928, section 2 of RFC 1929) over a transport
 that splits reads and writes arbitrarily.

 `Handshake` is the specification: a function of the bytes the server sends. `Client` is the
 handshake as the source runs it, with its `write_all` and `read_exact` loops.
 */
module Socks5 {
  import opened Common

  type Bytes = seq<Byte>

  const VERSION: Byte := 0x05
  const AUTH_NONE: Byte := 0x00
  const AUTH_USERNAME_PASSWORD: Byte := 0x02
  const AUTH_NO_ACCEPTABLE: Byte := 0xFF
  const CMD_CONNECT: Byte := 0x01
  const ATYP_IPV4: Byte := 0x01
  const ATYP_DOMAIN: Byte := 0x03
  const ATYP_IPV6: Byte := 0x04
  const REPLY_SUCCESS: Byte := 0x00
  const USERNAME_PASSWORD_VERSION: Byte := 0x01

  datatype Dns = Local | Remote

  datatype Auth = Auth(username: Bytes, password: Bytes)

  type Port = p: int | 0 <= p < 0x10000

  /** `literal` is what parsing the host as an IP address yields. */
  datatype Request = Request(
    host: Bytes, literal: Option<IpAddr>, port: Port, auth: Option<Auth>, dns: Dns, resolved: Option<IpAddr>)

  datatype Error =
    | UnexpectedEof
    | TransportFailed
    | Authentication
    | Protocol
    | ConnectRejected(code: Byte)

  datatype Outcome = Success | Failure(error: Error)

  predicate ValidIp(a: IpAddr) {
    |a.octets| == if a.V4? then 4 else 16
  }

  predicate ValidRequest(r: Request) {
    (r.literal.Some? ==> ValidIp(r.literal.value)) && (r.resolved.Some? ==> ValidIp(r.resolved.value))
  }

  // ---------------------------------------------------------------------
  // Messages
  // ---------------------------------------------------------------------

  datatype Target = Ip(addr: IpAddr) | Domain(name: Bytes)

  predicate ValidTarget(t: Target) {
    match t
    case Ip(addr) => ValidIp(addr)
    case Domain(name) => |name| <= 255
  }

  /** The address a request asks for, or nothing when it cannot be encoded. */
  function TargetOf(r: Request): (t: Option<Target>)
    requires ValidRequest(r)
    ensures t.Some? ==> ValidTarget(t.value)
  {
    if r.dns.Local? && r.resolved.None? then None
    else
      var addr := if r.dns.Local? then r.resolved else r.literal;
      match addr
      case Some(ip) => Some(Ip(ip))
      case None => if |r.host| > 255 then None else Some(Domain(r.host))
  }

  function EncodeTarget(t: Target): Bytes
    requires ValidTarget(t)
  {
    match t
    case Ip(V4(octets)) => [ATYP_IPV4] + octets
    case Ip(V6(octets)) => [ATYP_IPV6] + octets
    case Domain(name) => [ATYP_DOMAIN, |name|] + name
  }

  function Greeting(r: Request): Bytes {
    if r.auth.Some? then [VERSION, 2, AUTH_NONE, AUTH_USERNAME_PASSWORD] else [VERSION, 1, AUTH_NONE]
  }

  function AuthMessage(a: Auth): Bytes
    requires |a.username| <= 255 && |a.password| <= 255
  {
    [USERNAME_PASSWORD_VERSION, |a.username|] + a.username + [|a.password|] + a.password
  }

  function ConnectMessage(t: Target, port: Port): Bytes
    requires ValidTarget(t)
  {
    [VERSION, CMD_CONNECT, 0] + EncodeTarget(t) + [port / 256, port % 256]
  }

  // ---------------------------------------------------------------------
  // The handshake as a function of the server's bytes
  // ---------------------------------------------------------------------

  datatype Result = Result(outcome: Outcome, sent: Bytes, consumed: nat)

  function Fail(e: Error, sent: Bytes, consumed: nat): Result {
    Result(Failure(e), sent, consumed)
  }

  /** Reading past the end consumes what is there and fails. */
  function Truncated(sent: Bytes, input: Bytes): Result {
    Fail(UnexpectedEof, sent, |input|)
  }

  function After(sent: Bytes, consumed: nat, r: Result): Result {
    Result(r.outcome, sent + r.sent, consumed + r.consumed)
  }

  /** The bound address that follows a successful reply header; it is read and discarded. */
  function ReadBoundAddress(kind: Byte, input: Bytes): Result {
    if kind == ATYP_IPV4 then if |input| < 6 then Truncated([], input) else Result(Success, [], 6)
    else if kind == ATYP_DOMAIN then
      if |input| < 1 || |input| < 3 + (input[0] as int) then Truncated([], input)
      else Result(Success, [], 3 + (input[0] as int))
    else if kind == ATYP_IPV6 then if |input| < 18 then Truncated([], input) else Result(Success, [], 18)
    else Fail(Protocol, [], 0)
  }

  function ReadReply(input: Bytes): Result {
    if |input| < 4 then Truncated([], input)
    else if input[0] != VERSION then Fail(Protocol, [], 4)
    else if input[2] != 0 then Fail(Protocol, [], 4)
    else if input[1] != REPLY_SUCCESS then Fail(ConnectRejected(input[1]), [], 4)
    else After([], 4, ReadBoundAddress(input[3], input[4..]))
  }

  function Connect(r: Request, input: Bytes): Result
    requires ValidRequest(r)
  {
    match TargetOf(r)
    case None => Fail(Protocol, [], 0)
    case Some(target) => After(ConnectMessage(target, r.port), 0, ReadReply(input))
  }

  function Authenticate(r: Request, input: Bytes): Result
    requires ValidRequest(r)
  {
    match r.auth
    case None => Fail(Authentication, [], 0)
    case Some(a) =>
      if |a.username| > 255 || |a.password| > 255 then Fail(Authentication, [], 0)
      else if |input| < 2 then Truncated(AuthMessage(a), input)
      else if input[0] != USERNAME_PASSWORD_VERSION then Fail(Protocol, AuthMessage(a), 2)
      else if input[1] != 0 then Fail(Authentication, AuthMessage(a), 2)
      else After(AuthMessage(a), 2, Connect(r, input[2..]))
  }

  function Handshake(r: Request, input: Bytes): Result
    requires ValidRequest(r)
  {
    if |input| < 2 then Truncated(Greeting(r), input)
    else if input[0] != VERSION then Fail(Protocol, Greeting(r), 2)
    else if input[1] == AUTH_NONE then After(Greeting(r), 2, Connect(r, input[2..]))
    else if input[1] == AUTH_USERNAME_PASSWORD then After(Greeting(r), 2, Authenticate(r, input[2..]))
    else if input[1] == AUTH_NO_ACCEPTABLE then Fail(Authentication, Greeting(r), 2)
    else Fail(Protocol, Greeting(r), 2)
  }

  /** A transport reached the specified result, or failed on the way to it. */
  ghost predicate Agrees(spec: Result, outcome: Outcome, sent: Bytes, sent': Bytes, input: Bytes, input': Bytes) {
    if outcome == Failure(TransportFailed) then
      && sent <= sent' <= sent + spec.sent
      && |input'| <= |input| && |input| - |input'| <= spec.consumed
    else
      && outcome == spec.outcome
      && sent' == sent + spec.sent
      && spec.consumed <= |input| && input' == input[spec.consumed..]
  }

  lemma AgreesAfter(spec: Result, outcome: Outcome, message: Bytes, consumed: nat,
                    sent: Bytes, sent': Bytes, input: Bytes, input': Bytes)
    requires consumed <= |input|
    requires Agrees(spec, outcome, sent + message, sent', input[consumed..], input')
    ensures Agrees(After(message, consumed, spec), outcome, sent, sent', input, input')
  {
    assert sent + message + spec.sent == sent + (message + spec.sent);
    if outcome == Failure(TransportFailed) {
      assert sent <= sent + message <= sent';
    }
  }

  // ---------------------------------------------------------------------
  // The transport and the client
  // ---------------------------------------------------------------------

  /** What one poll of the transport does: move up to `n` bytes, or fail. */
  datatype Io = Move(n: nat) | Break

  /** A connection whose peer has `input` left to send; `plan` decides how transfers are split. */
  class Client {
    var input: Bytes
    var sent: Bytes
    var plan: seq<Io>

    /** No write stalls at zero bytes and no poll fails. */
    ghost predicate Smooth()
      reads this
    {
      forall i | 0 <= i < |plan| :: plan[i].Move? && plan[i].n > 0
    }

    constructor (input: Bytes, plan: seq<Io>)
      ensures this.input == input && this.plan == plan && this.sent == []
    {
      this.input := input;
      this.plan := plan;
      this.sent := [];
    }

    method NextIo(want: nat) returns (io: Io)
      modifies this`plan
      ensures old(Smooth()) ==> Smooth() && io.Move? && (want > 0 ==> io.n > 0)
    {
      if plan == [] {
        return Move(want);
      }
      io := plan[0];
      plan := plan[1..];
    }

    method WriteAll(buf: Bytes) returns (ok: bool)
      modifies this`sent, this`plan
      ensures old(Smooth()) ==> Smooth() && ok
      ensures if ok then sent == old(sent) + buf else old(sent) <= sent <= old(sent) + buf
    {
      var written := 0;
      while written < |buf|
        invariant written <= |buf|
        invariant sent == old(sent) + buf[..written]
        invariant old(Smooth()) ==> Smooth()
      {
        var io := NextIo(|buf| - written);
        if io.Break? {
          return false;
        }
        var n := Min(io.n, |buf| - written);
        if n == 0 {
          return false;
        }
        sent := sent + buf[written..written + n];
        assert buf[..written] + buf[written..written + n] == buf[..written + n];
        written := written + n;
      }
      assert buf[..written] == buf;
      var flush := NextIo(0);
      ok := flush.Move?;
    }

    /** A read of nothing is the end of the stream, so a read with data available moves at least one byte. */
    method ReadExact(n: nat) returns (r: Option<Bytes>, error: Error)
      modifies this`input, this`plan
      ensures old(Smooth()) ==> Smooth() && (r.None? ==> error == UnexpectedEof)
      ensures r.Some? ==> n <= |old(input)| && r.value == old(input)[..n] && input == old(input)[n..]
      ensures r.None? && error == UnexpectedEof ==> |old(input)| < n && input == []
      ensures r.None? ==> error == UnexpectedEof || error == TransportFailed
      ensures r.None? ==> |input| <= |old(input)| && |old(input)| - |input| <= n
    {
      error := TransportFailed;
      var buf: Bytes := [];
      while |buf| < n
        invariant |buf| <= n && |buf| <= |old(input)|
        invariant buf == old(input)[..|buf|] && input == old(input)[|buf|..]
        invariant old(Smooth()) ==> Smooth()
        decreases n - |buf|
      {
        var io := NextIo(n - |buf|);
        if io.Break? {
          return None, TransportFailed;
        }
        if input == [] {
          return None, UnexpectedEof;
        }
        var moved := Min(if io.n == 0 then 1 else io.n, Min(n - |buf|, |input|));
        buf := buf + input[..moved];
        input := input[moved..];
      }
      r := Some(buf);
    }

    method DiscardBoundAddress(kind: Byte) returns (outcome: Outcome)
      modifies this`input, this`plan
      ensures Agrees(ReadBoundAddress(kind, old(input)), outcome, sent, sent, old(input), input)
      ensures old(Smooth()) ==> Smooth() && outcome != Failure(TransportFailed)
    {
      if kind == ATYP_IPV4 {
        var buf, error := ReadExact(6);
        outcome := if buf.Some? then Success else Failure(error);
      } else if kind == ATYP_DOMAIN {
        var length, error := ReadExact(1);
        if length.None? {
          return Failure(error);
        }
        var buf, error' := ReadExact((length.value[0] as int) + 2);
        outcome := if buf.Some? then Success else Failure(error');
      } else if kind == ATYP_IPV6 {
        var buf, error := ReadExact(18);
        outcome := if buf.Some? then Success else Failure(error);
      } else {
        outcome := Failure(Protocol);
      }
    }

    method ReceiveReply() returns (outcome: Outcome)
      modifies this`input, this`plan
      ensures Agrees(ReadReply(old(input)), outcome, sent, sent, old(input), input)
      ensures old(Smooth()) ==> Smooth() && outcome != Failure(TransportFailed)
    {
      var header, error := ReadExact(4);
      if header.None? {
        return Failure(error);
      }
      var reply := header.value;
      if reply[0] != VERSION {
        return Failure(Protocol);
      }
      if reply[2] != 0 {
        return Failure(Protocol);
      }
      if reply[1] != REPLY_SUCCESS {
        return Failure(ConnectRejected(reply[1]));
      }
      ghost var rest := input;
      outcome := DiscardBoundAddress(reply[3]);
      assert sent + [] == sent;
      AgreesAfter(ReadBoundAddress(reply[3], rest), outcome, [], 4, sent, sent, old(input), input);
    }

    /** `append_target_address`: pushes the address type and the address, or leaves the message unusable. */
    method AppendTargetAddress(message: Bytes, r: Request) returns (ok: bool, extended: Bytes)
      requires ValidRequest(r)
      ensures ok <==> TargetOf(r).Some?
      ensures ok ==> extended == message + EncodeTarget(TargetOf(r).value)
    {
      extended := message;
      var addr: Option<IpAddr>;
      match r.dns {
        case Local =>
          if r.resolved.None? {
            return false, extended;
          }
          addr := r.resolved;
        case Remote =>
          addr := r.literal;
      }
      if addr.Some? {
        match addr.value {
          case V4(octets) =>
            extended := extended + ([ATYP_IPV4] + octets);
          case V6(octets) =>
            extended := extended + ([ATYP_IPV6] + octets);
        }
        return true, extended;
      }
      if |r.host| > 255 {
        return false, extended;
      }
      extended := extended + ([ATYP_DOMAIN, |r.host|] + r.host);
      return true, extended;
    }

    method RequestConnect(r: Request) returns (outcome: Outcome)
      requires ValidRequest(r)
      modifies this
      ensures Agrees(Connect(r, old(input)), outcome, old(sent), sent, old(input), input)
      ensures old(Smooth()) ==> Smooth() && outcome != Failure(TransportFailed)
    {
      var encodable, message := AppendTargetAddress([VERSION, CMD_CONNECT, 0], r);
      if !encodable {
        return Failure(Protocol);
      }
      message := message + [r.port / 256, r.port % 256];
      var ok := WriteAll(message);
      if !ok {
        assert old(sent) + message <= old(sent) + Connect(r, old(input)).sent;
        return Failure(TransportFailed);
      }
      outcome := ReceiveReply();
      assert old(input)[0..] == old(input);
      AgreesAfter(ReadReply(old(input)), outcome, message, 0, old(sent), sent, old(input), input);
    }

    method RequestAuthentication(r: Request) returns (outcome: Outcome)
      requires ValidRequest(r)
      modifies this
      ensures Agrees(Authenticate(r, old(input)), outcome, old(sent), sent, old(input), input)
      ensures old(Smooth()) ==> Smooth() && outcome != Failure(TransportFailed)
    {
      if r.auth.None? {
        return Failure(Authentication);
      }
      var auth := r.auth.value;
      if |auth.username| > 255 || |auth.password| > 255 {
        return Failure(Authentication);
      }
      var message := [USERNAME_PASSWORD_VERSION, |auth.username|] + auth.username + [|auth.password|] + auth.password;
      var ok := WriteAll(message);
      if !ok {
        assert old(sent) + message <= old(sent) + Authenticate(r, old(input)).sent;
        return Failure(TransportFailed);
      }
      var reply, error := ReadExact(2);
      if reply.None? {
        return Failure(error);
      }
      if reply.value[0] != USERNAME_PASSWORD_VERSION {
        return Failure(Protocol);
      }
      if reply.value[1] != 0 {
        return Failure(Authentication);
      }
      ghost var rest := input;
      outcome := RequestConnect(r);
      AgreesAfter(Connect(r, rest), outcome, message, 2, old(sent), sent, old(input), input);
    }

    method RunHandshake(r: Request) returns (outcome: Outcome)
      requires ValidRequest(r)
      modifies this
      ensures Agrees(Handshake(r, old(input)), outcome, old(sent), sent, old(input), input)
      ensures old(Smooth()) ==> outcome != Failure(TransportFailed)
    {
      var methods := if r.auth.Some? then [VERSION, 2, AUTH_NONE, AUTH_USERNAME_PASSWORD] else [VERSION, 1, AUTH_NONE];
      var ok := WriteAll(methods);
      if !ok {
        assert old(sent) + methods <= old(sent) + Handshake(r, old(input)).sent;
        return Failure(TransportFailed);
      }
      var reply, error := ReadExact(2);
      if reply.None? {
        return Failure(error);
      }
      if reply.value[0] != VERSION {
        return Failure(Protocol);
      }
      ghost var rest := input;
      if reply.value[1] == AUTH_NONE {
        outcome := RequestConnect(r);
        AgreesAfter(Connect(r, rest), outcome, methods, 2, old(sent), sent, old(input), input);
      } else if reply.value[1] == AUTH_USERNAME_PASSWORD {
        outcome := RequestAuthentication(r);
        AgreesAfter(Authenticate(r, rest), outcome, methods, 2, old(sent), sent, old(input), input);
      } else if reply.value[1] == AUTH_NO_ACCEPTABLE {
        outcome := Failure(Authentication);
      } else {
        outcome := Failure(Protocol);
      }
    }
  }
}
