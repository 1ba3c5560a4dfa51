/**
 What the SOCKS5 handshake means on the wire: which server bytes it consumes, which of them make it
 fail and how, and what a server following RFC 1928 and RFC 1929 reads from the client. Servers are
 described in the numbers of those documents.
 */
module Socks5Wire {
  import opened Common
  import opened Socks5

  // ---------------------------------------------------------------------
  // The bytes a server may answer with
  // ---------------------------------------------------------------------

  /** A well-behaved server: it picks a method, accepts the credentials and reports a bound address. */
  datatype Server = Server(authenticates: bool, bound: Target, port: Port)

  function PortBytes(port: Port): Bytes {
    [port / 256, port % 256]
  }

  function MethodReply(s: Server): Bytes {
    if s.authenticates then [0x05, 0x02, 0x01, 0x00] else [0x05, 0x00]
  }

  function ConnectReply(s: Server): Bytes
    requires ValidTarget(s.bound)
  {
    [0x05, 0x00, 0x00] + EncodeTarget(s.bound) + PortBytes(s.port)
  }

  /** The request can be carried out by this server. */
  predicate Compatible(r: Request, s: Server)
    requires ValidRequest(r)
  {
    && ValidTarget(s.bound)
    && TargetOf(r).Some?
    && (s.authenticates ==> HasCredentials(r))
  }

  function ClientBytes(r: Request, s: Server): Bytes
    requires ValidRequest(r) && Compatible(r, s)
  {
    Preamble(r, s.authenticates) + ConnectMessage(TargetOf(r).value, r.port)
  }

  // ---------------------------------------------------------------------
  // Exact consumption
  // ---------------------------------------------------------------------

  lemma BoundAddressComplete(t: Target, port: Port, tail: Bytes)
    requires ValidTarget(t)
    ensures var b := EncodeTarget(t) + PortBytes(port);
            ReadBoundAddress(b[0], (b + tail)[1..]) == Result(Success, [], |b| - 1)
  {
  }

  lemma ReplyComplete(s: Server, tail: Bytes)
    requires ValidTarget(s.bound)
    ensures ReadReply(ConnectReply(s) + tail) == Result(Success, [], |ConnectReply(s)|)
  {
    var b := EncodeTarget(s.bound) + PortBytes(s.port);
    var input := ConnectReply(s) + tail;
    BoundAddressComplete(s.bound, s.port, tail);
    assert ConnectReply(s) == [VERSION, REPLY_SUCCESS, 0] + b;
    assert input[4..] == (b + tail)[1..];
    assert input[3] == b[0];
  }

  lemma ConnectComplete(r: Request, s: Server, tail: Bytes)
    requires ValidRequest(r) && Compatible(r, s)
    ensures Connect(r, ConnectReply(s) + tail) ==
            Result(Success, ConnectMessage(TargetOf(r).value, r.port), |ConnectReply(s)|)
  {
    ReplyComplete(s, tail);
    var message := ConnectMessage(TargetOf(r).value, r.port);
    assert message + [] == message;
  }

  predicate HasCredentials(r: Request) {
    r.auth.Some? && |r.auth.value.username| <= 255 && |r.auth.value.password| <= 255
  }

  function Preamble(r: Request, authenticates: bool): Bytes
    requires authenticates ==> HasCredentials(r)
  {
    Greeting(r) + (if authenticates then AuthMessage(r.auth.value) else [])
  }

  /** Once a method is agreed on, what remains is the CONNECT exchange. */
  lemma AfterMethod(r: Request, s: Server, rest: Bytes)
    requires ValidRequest(r) && (s.authenticates ==> HasCredentials(r))
    ensures Handshake(r, MethodReply(s) + rest) ==
            After(Preamble(r, s.authenticates), |MethodReply(s)|, Connect(r, rest))
  {
    var input, sent := MethodReply(s) + rest, Connect(r, rest).sent;
    if s.authenticates {
      assert input[2..][2..] == rest;
      assert input[2..][0] == USERNAME_PASSWORD_VERSION && input[2..][1] == 0;
      assert Greeting(r) + (AuthMessage(r.auth.value) + sent) == Preamble(r, true) + sent;
    } else {
      assert input[2..] == rest;
      assert Greeting(r) + [] == Greeting(r);
    }
  }

  /** Against a well-behaved server the handshake succeeds, and takes its replies and no byte more. */
  lemma HandshakeComplete(r: Request, s: Server, tail: Bytes)
    requires ValidRequest(r) && Compatible(r, s)
    ensures Handshake(r, MethodReply(s) + ConnectReply(s) + tail) ==
            Result(Success, ClientBytes(r, s), |MethodReply(s)| + |ConnectReply(s)|)
  {
    ConnectComplete(r, s, tail);
    AfterMethod(r, s, ConnectReply(s) + tail);
    assert MethodReply(s) + ConnectReply(s) + tail == MethodReply(s) + (ConnectReply(s) + tail);
  }

  lemma BoundAddressSound(kind: Byte, input: Bytes) returns (t: Target, port: Port)
    requires ReadBoundAddress(kind, input).outcome.Success?
    ensures ValidTarget(t)
    ensures var n := ReadBoundAddress(kind, input).consumed;
            n <= |input| && [kind] + input[..n] == EncodeTarget(t) + PortBytes(port)
  {
    var n := ReadBoundAddress(kind, input).consumed;
    port := 256 * (input[n - 2] as int) + (input[n - 1] as int);
    assert PortBytes(port) == [input[n - 2], input[n - 1]];
    if kind == ATYP_IPV4 {
      t := Ip(V4(input[..4]));
    } else if kind == ATYP_IPV6 {
      t := Ip(V6(input[..16]));
    } else {
      t := Domain(input[1..n - 2]);
    }
  }

  lemma ReplySound(input: Bytes, authenticates: bool) returns (s: Server)
    requires ReadReply(input).outcome.Success?
    ensures s.authenticates == authenticates && ValidTarget(s.bound)
    ensures ReadReply(input).consumed <= |input| && input[..ReadReply(input).consumed] == ConnectReply(s)
  {
    var t, port := BoundAddressSound(input[3], input[4..]);
    s := Server(authenticates, t, port);
    var n := ReadBoundAddress(input[3], input[4..]).consumed;
    assert input[..4 + n] == [VERSION, REPLY_SUCCESS, 0] + ([input[3]] + input[4..][..n]);
  }

  /** A success has read exactly a method reply, an authentication reply if asked for, and one CONNECT reply. */
  lemma HandshakeSound(r: Request, input: Bytes) returns (s: Server)
    requires ValidRequest(r) && Handshake(r, input).outcome.Success?
    ensures Compatible(r, s)
    ensures var h := Handshake(r, input);
            && h.consumed <= |input|
            && input[..h.consumed] == MethodReply(s) + ConnectReply(s)
            && h.sent == ClientBytes(r, s)
  {
    var authenticates, rest := SuccessAgreesOnMethod(r, input);
    s := ReplySound(rest, authenticates);
    assert input == MethodReply(s) + rest;
    var tail := rest[ReadReply(rest).consumed..];
    Assemble(input, MethodReply(s), rest, ConnectReply(s), tail);
    ScriptIsConsumed(r, s, tail, input);
  }

  lemma Assemble(input: Bytes, first: Bytes, rest: Bytes, second: Bytes, tail: Bytes)
    requires input == first + rest && |second| <= |rest| && rest[..|second|] == second && tail == rest[|second|..]
    ensures input == first + second + tail
  {
    assert rest == second + tail;
    Associative(first, second, tail);
  }

  lemma ScriptIsConsumed(r: Request, s: Server, tail: Bytes, input: Bytes)
    requires ValidRequest(r) && Compatible(r, s) && input == MethodReply(s) + ConnectReply(s) + tail
    ensures var h := Handshake(r, input);
            && h.consumed <= |input|
            && input[..h.consumed] == MethodReply(s) + ConnectReply(s)
            && h.sent == ClientBytes(r, s)
  {
    HandshakeComplete(r, s, tail);
    TakePrefix(MethodReply(s), ConnectReply(s), tail);
  }

  lemma TakePrefix(a: Bytes, b: Bytes, c: Bytes)
    ensures (a + b + c)[..|a| + |b|] == a + b
  {
  }

  lemma SuccessAgreesOnMethod(r: Request, input: Bytes) returns (authenticates: bool, rest: Bytes)
    requires ValidRequest(r) && Handshake(r, input).outcome.Success?
    ensures authenticates ==> HasCredentials(r)
    ensures forall t: Target, port: Port :: input == MethodReply(Server(authenticates, t, port)) + rest
    ensures TargetOf(r).Some? && ReadReply(rest).outcome.Success?
  {
    authenticates := input[1] == AUTH_USERNAME_PASSWORD;
    if authenticates {
      rest := input[2..][2..];
      assert input == [input[0], input[1], input[2..][0], input[2..][1]] + rest;
    } else {
      rest := input[2..];
      assert input == [input[0], input[1]] + rest;
    }
  }

  /** Any outcome but a truncated stream is decided by the bytes consumed: nothing beyond them is looked at. */
  lemma ConsumedBytesDecide(r: Request, input: Bytes, other: Bytes)
    requires ValidRequest(r) && Handshake(r, input).outcome != Failure(UnexpectedEof)
    requires Handshake(r, input).consumed <= |input|
    requires input[..Handshake(r, input).consumed] <= other
    ensures Handshake(r, other) == Handshake(r, input)
  {
    var n := Handshake(r, input).consumed;
    assert forall i | 0 <= i < n :: other[i] == input[..n][i] == input[i];
    if input[0] == VERSION {
      if input[1] == AUTH_NONE {
        ConnectDecided(r, input[2..], other[2..]);
      } else if input[1] == AUTH_USERNAME_PASSWORD {
        AuthenticateDecided(r, input[2..], other[2..]);
      }
    }
  }

  /** `other` agrees with `input` on its first `n` bytes. */
  ghost predicate SameUpTo(input: Bytes, other: Bytes, n: nat) {
    n <= |input| && n <= |other| && forall i | 0 <= i < n :: other[i] == input[i]
  }

  lemma ReplyDecided(input: Bytes, other: Bytes)
    requires ReadReply(input).outcome != Failure(UnexpectedEof)
    requires SameUpTo(input, other, ReadReply(input).consumed)
    ensures ReadReply(other) == ReadReply(input)
  {
    assert |input| >= 4 && |other| >= 4;
    assert forall i | 0 <= i < |input| - 4 :: input[4..][i] == input[i + 4];
    assert forall i | 0 <= i < |other| - 4 :: other[4..][i] == other[i + 4];
  }

  lemma ConnectDecided(r: Request, input: Bytes, other: Bytes)
    requires ValidRequest(r) && Connect(r, input).outcome != Failure(UnexpectedEof)
    requires SameUpTo(input, other, Connect(r, input).consumed)
    ensures Connect(r, other) == Connect(r, input)
  {
    if TargetOf(r).Some? {
      ReplyDecided(input, other);
    }
  }

  lemma AuthenticateDecided(r: Request, input: Bytes, other: Bytes)
    requires ValidRequest(r) && Authenticate(r, input).outcome != Failure(UnexpectedEof)
    requires SameUpTo(input, other, Authenticate(r, input).consumed)
    ensures Authenticate(r, other) == Authenticate(r, input)
  {
    if r.auth.Some? && |r.auth.value.username| <= 255 && |r.auth.value.password| <= 255 {
      if input[0] == USERNAME_PASSWORD_VERSION && input[1] == 0 {
        ConnectDecided(r, input[2..], other[2..]);
      }
    }
  }

  // ---------------------------------------------------------------------
  // What the server reads
  // ---------------------------------------------------------------------

  function ReadTarget(b: Bytes): Option<(Target, Bytes)> {
    if b == [] then None
    else if b[0] == 0x01 then if |b| < 5 then None else Some((Ip(V4(b[1..5])), b[5..]))
    else if b[0] == 0x04 then if |b| < 17 then None else Some((Ip(V6(b[1..17])), b[17..]))
    else if b[0] == 0x03 then
      if |b| < 2 || |b| < 2 + (b[1] as int) then None
      else Some((Domain(b[2..2 + (b[1] as int)]), b[2 + (b[1] as int)..]))
    else None
  }

  /** The address encoding is uniquely decodable, whatever follows it. */
  lemma TargetReadsBack(t: Target, rest: Bytes)
    requires ValidTarget(t)
    ensures ReadTarget(EncodeTarget(t) + rest) == Some((t, rest))
  {
    var b := EncodeTarget(t) + rest;
    match t
    case Ip(V4(octets)) => assert b[1..5] == octets && b[5..] == rest;
    case Ip(V6(octets)) => assert b[1..17] == octets && b[17..] == rest;
    case Domain(name) => assert b[2..2 + |name|] == name && b[2 + |name|..] == rest;
  }

  function ReadConnect(b: Bytes): Option<(Target, Port)> {
    if |b| < 3 || b[0] != 0x05 || b[1] != 0x01 || b[2] != 0x00 then None
    else match ReadTarget(b[3..])
      case None => None
      case Some(read) =>
        if |read.1| != 2 then None
        else Some((read.0, 256 * (read.1[0] as int) + (read.1[1] as int)))
  }

  lemma ConnectReadsBack(t: Target, port: Port)
    requires ValidTarget(t)
    ensures ReadConnect(ConnectMessage(t, port)) == Some((t, port))
  {
    assert ConnectMessage(t, port)[3..] == EncodeTarget(t) + PortBytes(port);
    TargetReadsBack(t, PortBytes(port));
  }

  function ReadAuth(b: Bytes): Option<(Auth, Bytes)> {
    if |b| < 2 || b[0] != 0x01 then None
    else
      var u := b[1] as int;
      if |b| < 3 + u then None
      else
        var p := b[2 + u] as int;
        if |b| < 3 + u + p then None
        else Some((Auth(b[2..2 + u], b[3 + u..3 + u + p]), b[3 + u + p..]))
  }

  lemma AuthReadsBack(a: Auth, rest: Bytes)
    requires |a.username| <= 255 && |a.password| <= 255
    ensures ReadAuth(AuthMessage(a) + rest) == Some((a, rest))
  {
    var b := AuthMessage(a) + rest;
    var u, p := |a.username|, |a.password|;
    assert b[2..2 + u] == a.username;
    assert b[2 + u] == p;
    assert b[3 + u..3 + u + p] == a.password;
    assert b[3 + u + p..] == rest;
  }

  datatype Session = Session(offered: Bytes, credentials: Option<Auth>, target: Target, port: Port)

  function ReadGreeting(b: Bytes): Option<(Bytes, Bytes)> {
    if |b| < 2 || b[0] != 0x05 || |b| < 2 + (b[1] as int) then None
    else Some((b[2..2 + (b[1] as int)], b[2 + (b[1] as int)..]))
  }

  function ReadRequest(offered: Bytes, credentials: Option<Auth>, b: Bytes): Option<Session> {
    match ReadConnect(b)
    case None => None
    case Some(c) => Some(Session(offered, credentials, c.0, c.1))
  }

  /** The whole session from the server's side, given whether it asked for credentials. */
  function ReadSession(authenticates: bool, b: Bytes): Option<Session> {
    match ReadGreeting(b)
    case None => None
    case Some(greeting) =>
      if !authenticates then ReadRequest(greeting.0, None, greeting.1)
      else match ReadAuth(greeting.1)
        case None => None
        case Some(a) => ReadRequest(greeting.0, Some(a.0), a.1)
  }

  function Offered(r: Request): Bytes {
    if r.auth.Some? then [0x00, 0x02] else [0x00]
  }

  lemma GreetingReadsBack(r: Request, rest: Bytes)
    ensures ReadGreeting(Greeting(r) + rest) == Some((Offered(r), rest))
  {
  }

  /** A server reads back the methods offered, the credentials if it asked, the target and the port. */
  lemma ServerReadsRequest(r: Request, s: Server)
    requires ValidRequest(r) && Compatible(r, s)
    ensures ReadSession(s.authenticates, ClientBytes(r, s)) ==
            Some(Session(Offered(r), if s.authenticates then r.auth else None, TargetOf(r).value, r.port))
  {
    var connect := ConnectMessage(TargetOf(r).value, r.port);
    ConnectReadsBack(TargetOf(r).value, r.port);
    if s.authenticates {
      AuthReadsBack(r.auth.value, connect);
      GreetingReadsBack(r, AuthMessage(r.auth.value) + connect);
      Associative(Greeting(r), AuthMessage(r.auth.value), connect);
    } else {
      GreetingReadsBack(r, connect);
      Associative(Greeting(r), connect, []);
    }
  }

  // ---------------------------------------------------------------------
  // The target asked for
  // ---------------------------------------------------------------------

  /** The handshake succeeds and the server reads `target` off the bytes sent. */
  ghost predicate AsksFor(r: Request, s: Server, h: Result, target: Target) {
    && h.outcome == Success
    && ReadSession(s.authenticates, h.sent) ==
       Some(Session(Offered(r), if s.authenticates then r.auth else None, target, r.port))
  }

  /** The handshake ends before the first byte of a CONNECT message. */
  ghost predicate AsksForNothing(r: Request, s: Server, h: Result)
    requires s.authenticates ==> HasCredentials(r)
  {
    && h.outcome == Failure(Protocol)
    && h.sent == Preamble(r, s.authenticates)
    && h.consumed == |MethodReply(s)|
  }

  lemma AskedTarget(r: Request, s: Server, tail: Bytes)
    requires ValidRequest(r) && ValidTarget(s.bound) && (s.authenticates ==> HasCredentials(r))
    ensures var h := Handshake(r, MethodReply(s) + ConnectReply(s) + tail);
            match TargetOf(r)
            case Some(t) => AsksFor(r, s, h, t)
            case None => AsksForNothing(r, s, h)
  {
    Associative(MethodReply(s), ConnectReply(s), tail);
    if TargetOf(r).Some? {
      HandshakeComplete(r, s, tail);
      ServerReadsRequest(r, s);
    } else {
      AfterMethod(r, s, ConnectReply(s) + tail);
      Associative(Preamble(r, s.authenticates), [], []);
    }
  }

  /**
   Resolving locally, the server is asked for the resolved address, and for nothing when there is none.
   Leaving it to the server, it is asked for the host: as an address if it is one, else by name if that fits.
   */
  lemma ServerIsAskedFor(r: Request, s: Server, tail: Bytes)
    requires ValidRequest(r) && ValidTarget(s.bound) && (s.authenticates ==> HasCredentials(r))
    ensures var h := Handshake(r, MethodReply(s) + ConnectReply(s) + tail);
            match r.dns
            case Local =>
              (if r.resolved.Some? then AsksFor(r, s, h, Ip(r.resolved.value)) else AsksForNothing(r, s, h))
            case Remote =>
              (if r.literal.Some? then AsksFor(r, s, h, Ip(r.literal.value))
               else if |r.host| <= 255 then AsksFor(r, s, h, Domain(r.host))
               else AsksForNothing(r, s, h))
  {
    AskedTarget(r, s, tail);
  }

  // ---------------------------------------------------------------------
  // Failures
  // ---------------------------------------------------------------------

  /** The first `n` bytes settle on a method the client can go through with. */
  ghost predicate Agreed(r: Request, input: Bytes, n: nat) {
    || (n == 2 && |input| >= 2 && input[0] == 0x05 && input[1] == 0x00)
    || (n == 4 && HasCredentials(r) && |input| >= 4 &&
        input[0] == 0x05 && input[1] == 0x02 && input[2] == 0x01 && input[3] == 0x00)
  }

  /** There is an address to send. */
  ghost predicate Sendable(r: Request) {
    if r.dns.Local? then r.resolved.Some? else r.literal.Some? || |r.host| <= 255
  }

  /** What comes after the method exchange is the CONNECT reply. */
  lemma AgreedThenReply(r: Request, input: Bytes, n: nat)
    requires ValidRequest(r) && Agreed(r, input, n)
    ensures n <= |input| && Handshake(r, input).outcome == Connect(r, input[n..]).outcome
    ensures Sendable(r) ==> Connect(r, input[n..]).outcome == ReadReply(input[n..]).outcome
    ensures !Sendable(r) ==> Connect(r, input[n..]).outcome == Failure(Protocol)
  {
    if n == 4 {
      assert input[2..][2..] == input[4..];
    }
  }

  /** A rejection carries the code in the second byte of the reply, and only a reply can reject. */
  lemma RejectionExactly(r: Request, input: Bytes, code: Byte)
    requires ValidRequest(r)
    ensures Handshake(r, input).outcome == Failure(ConnectRejected(code)) <==>
            && code != 0 && Sendable(r)
            && exists n: nat ::
                 && Agreed(r, input, n) && |input| >= n + 4
                 && input[n] == 0x05 && input[n + 1] == code && input[n + 2] == 0x00
  {
    forall n: nat | Agreed(r, input, n)
      ensures Handshake(r, input).outcome == Failure(ConnectRejected(code)) <==>
              && code != 0 && Sendable(r) && |input| >= n + 4
              && input[n] == 0x05 && input[n + 1] == code && input[n + 2] == 0x00
    {
      AgreedThenReply(r, input, n);
    }
    if Handshake(r, input).outcome == Failure(ConnectRejected(code)) {
      assert Agreed(r, input, if input[1] == 0x00 then 2 else 4);
    }
  }

  /** Authentication fails exactly when no method is acceptable, credentials are missing, or they are turned down. */
  lemma AuthenticationFailureExactly(r: Request, input: Bytes)
    requires ValidRequest(r)
    ensures Handshake(r, input).outcome == Failure(Authentication) <==>
            && |input| >= 2 && input[0] == 0x05
            && (|| input[1] == 0xFF
                || (input[1] == 0x02 && !HasCredentials(r))
                || (input[1] == 0x02 && |input| >= 4 && input[2] == 0x01 && input[3] != 0x00))
  {
  }

  /** A protocol error is a wrong version, an unknown method, a malformed reply, or a target that cannot be sent. */
  lemma ProtocolFailureExactly(r: Request, input: Bytes)
    requires ValidRequest(r)
    ensures Handshake(r, input).outcome == Failure(Protocol) <==>
            && |input| >= 2
            && (|| input[0] != 0x05
                || input[1] !in {0x00, 0x02, 0xFF}
                || (input[1] == 0x02 && HasCredentials(r) && |input| >= 4 && input[2] != 0x01)
                || exists n: nat :: Agreed(r, input, n) && (!Sendable(r) || MalformedReply(input, n)))
  {
    forall n: nat | Agreed(r, input, n)
      ensures Handshake(r, input).outcome == Failure(Protocol) <==> !Sendable(r) || MalformedReply(input, n)
    {
      AgreedThenReply(r, input, n);
    }
    if Handshake(r, input).outcome == Failure(Protocol) && input[0] == 0x05 {
      assert input[1] == 0x00 ==> Agreed(r, input, 2);
      assert input[1] == 0x02 && HasCredentials(r) && input[2] == 0x01 ==> Agreed(r, input, 4);
    }
  }

  ghost predicate MalformedReply(input: Bytes, n: nat) {
    && |input| >= n + 4
    && (input[n] != 0x05 || input[n + 2] != 0x00 || (input[n + 1] == 0x00 && input[n + 3] !in {0x01, 0x03, 0x04}))
  }
}
