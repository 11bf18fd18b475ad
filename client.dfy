/** The RCONcli session object of rcon.py: its `socket` field and the
    methods that guard on it. The transport is injected: connecting takes
    the outcome of the TCP connect and the data the server will send, one
    item per recv, and a socket records every frame sent through it. */
module Client {
  import opened Wire
  import opened Outcomes
  import opened Codec
  import opened Exchange

  datatype Status = Unconnected | Connected | Closed

  /** A socket object: whether it is connected or closed, every frame sent
      through it, and what the next receive_packet calls on it return (the
      server's remaining data, each recv already run through the parser). */
  datatype Handle = Handle(status: Status, sent: seq<seq<Byte>>, inbox: Replies)

  /** The ports socket.connect accepts. A port that does not fit a C int
      raises OverflowError before the host is looked up; one that fits but
      lies outside this range raises it once the host has resolved. */
  predicate IsPort(p: int) {
    0 <= p <= 0xFFFF
  }

  /** How socket.connect((host, port)) ends: the host lookup fails with the
      given reason (socket.gaierror), or the host resolves and, for a port
      in range, the TCP connect succeeds, times out or is refused. */
  datatype ConnectOutcome = Unresolved(reason: string) | Established | TimedOut | Refused(reason: string)

  /** socket.send(frame): a socket that never connected, or one that was
      closed, raises OSError. */
  function Transmit(h: Handle, frame: seq<Byte>): (r: Result<Handle>)
    ensures r.Ok? <==> h.status == Connected
    ensures r.Ok? ==> r.value == h.(sent := h.sent + [frame])
    ensures r.Err? ==> r.error == OSError
  {
    if h.status == Connected then Ok(h.(sent := h.sent + [frame])) else Err(OSError)
  }

  class RconClient {
    const host: string
    const port: int
    const password: string
    /** None until connect() runs; after that always a socket object. */
    var socket: Option<Handle>

    constructor (host: string, port: int, password: string)
      ensures this.host == host && this.port == port && this.password == password
      ensures socket == None
    {
      this.host := host;
      this.port := port;
      this.password := password;
      socket := None;
    }

    /** connect(): the socket object is stored before the connection is
        attempted, so it stays in the field when the attempt fails. The
        address is checked in CPython's order: a port beyond a C int raises
        OverflowError, then a failed host lookup raises the OSError that the
        second except clause turns into ConnectionError, then a port outside
        0-65535 raises OverflowError, which neither except clause catches. */
    method Connect(outcome: ConnectOutcome, inbox: seq<Incoming>) returns (r: Result<()>)
      modifies this
      ensures var established := IsPort(port) && outcome.Established?;
              socket == Some(Handle(if established then Connected else Unconnected, [], Decoded(inbox)))
      ensures !IsInt32(port) ==> r == Err(OverflowError)
      ensures IsInt32(port) && outcome.Unresolved? ==> r == Err(ConnectionError(ConnectErrorPrefix + outcome.reason))
      ensures !outcome.Unresolved? && !IsPort(port) ==> r == Err(OverflowError)
      ensures IsPort(port) && outcome.Established? ==> r == Ok(())
      ensures IsPort(port) && outcome.TimedOut? ==> r == Err(TimeoutError(ConnectTimeoutMessage))
      ensures IsPort(port) && outcome.Refused? ==> r == Err(ConnectionError(ConnectErrorPrefix + outcome.reason))
    {
      socket := Some(Handle(Unconnected, [], Decoded(inbox)));
      if !IsInt32(port) {
        return Err(OverflowError);
      }
      if outcome.Unresolved? {
        return Err(ConnectionError(ConnectErrorPrefix + outcome.reason));
      }
      if !IsPort(port) {
        return Err(OverflowError);
      }
      match outcome
      case Established =>
        socket := Some(socket.value.(status := Connected));
        r := Ok(());
      case TimedOut =>
        r := Err(TimeoutError(ConnectTimeoutMessage));
      case Refused(reason) =>
        r := Err(ConnectionError(ConnectErrorPrefix + reason));
    }

    /** disconnect(): closes the socket but leaves it in the field. */
    method Disconnect()
      modifies this
      ensures old(socket).None? ==> socket == None
      ensures old(socket).Some? ==> socket == Some(old(socket).value.(status := Closed))
    {
      if socket.Some? {
        socket := Some(socket.value.(status := Closed));
      }
    }

    /** receive_packet() on a connected socket: it takes the next reply off
        the queue, or times out when the server has nothing more to send. */
    method ReceivePacket() returns (r: Result<Packet>)
      requires socket.Some? && socket.value.status == Connected
      modifies this
      ensures socket == Some(old(socket).value.(inbox := Drop(old(socket).value.inbox, 1)))
      ensures r == ReplyAt(old(socket).value.inbox, 0)
    {
      var h := socket.value;
      r := ReplyAt(h.inbox, 0);
      socket := Some(h.(inbox := Drop(h.inbox, 1)));
    }

    /** serverdata_auth(): without a socket it returns False and sends
        nothing; otherwise it sends one type-3 frame carrying the password
        and decides on the one reply it reads. */
    method Authenticate(requestId: int) returns (r: Result<bool>)
      requires IsRequestId(requestId)
      modifies this
      ensures old(socket).None? ==> r == Ok(false) && socket == None
      ensures old(socket).Some? ==>
                var h, frame := old(socket).value, CreatePacket(requestId, Auth, password);
                if frame.Err? then r == Err(frame.error) && socket == old(socket)
                else if h.status != Connected then r == Err(OSError) && socket == old(socket)
                else
                  && socket == Some(h.(sent := h.sent + [frame.value], inbox := Drop(h.inbox, 1)))
                  && r == AuthDecision(h.inbox)
    {
      if socket.None? {
        return Ok(false);
      }
      var frame := CreatePacket(requestId, Auth, password);
      if frame.Err? {
        return Err(frame.error);
      }
      var sending := Transmit(socket.value, frame.value);
      if sending.Err? {
        return Err(sending.error);
      }
      socket := Some(sending.value);
      var response := ReceivePacket();
      if response.Err? {
        return Err(response.error);
      }
      if response.value.requestId == -1 {
        return Err(ValueError(IncorrectPasswordMessage));
      }
      return Ok(true);
    }

    /** send_command(command): without a socket it does nothing. Otherwise it
        sends one type-2 frame, reads a reply, skips up to three empty type-2
        replies, and fails once the retry counter reaches three. The Python
        method returns None and logs the body; here the logged body is the
        result, and Ok(None) is the no-socket case. */
    method SendCommand(command: string, requestId: int) returns (r: Result<Option<string>>)
      requires IsRequestId(requestId)
      modifies this
      ensures old(socket).None? ==> r == Ok(None) && socket == None
      ensures old(socket).Some? ==>
                var h, frame := old(socket).value, CreatePacket(requestId, ExecCommand, command);
                var ex := CommandExchange(h.inbox);
                if frame.Err? then r == Err(frame.error) && socket == old(socket)
                else if h.status != Connected then r == Err(OSError) && socket == old(socket)
                else
                  && socket == Some(h.(sent := h.sent + [frame.value], inbox := Drop(h.inbox, ex.rereads + 1)))
                  && r == if ex.outcome.Ok? then Ok(Some(ex.outcome.value)) else Err(ex.outcome.error)
    {
      if socket.None? {
        return Ok(None);
      }
      var frame := CreatePacket(requestId, ExecCommand, command);
      if frame.Err? {
        return Err(frame.error);
      }
      var sending := Transmit(socket.value, frame.value);
      if sending.Err? {
        return Err(sending.error);
      }
      socket := Some(sending.value);
      ghost var sent := sending.value;
      ghost var replies := sent.inbox;
      var first := ReceivePacket();
      if first.Err? {
        return Err(first.error);
      }
      var response := first.value;
      var retries := 0;
      while IsEmptyAck(response) && retries < MaxRetries
        invariant 0 <= retries <= MaxRetries
        invariant socket.Some? && socket.value == sent.(inbox := socket.value.inbox)
        invariant RetryLoop(response, retries, socket.value.inbox) == CommandExchange(replies)
        decreases MaxRetries - retries
      {
        var next := ReceivePacket();
        if next.Err? {
          return Err(next.error);
        }
        response := next.value;
        retries := retries + 1;
      }
      if retries >= MaxRetries {
        return Err(GenericException(NotRespondingMessage));
      }
      return Ok(Some(response.body));
    }

    /** __enter__: connect, authenticate, and raise ConnectionError when
        serverdata_auth returns False. Connect always leaves a socket in the
        field, so that error is never raised: a rejected password surfaces as
        the ValueError of serverdata_auth instead. */
    method Enter(outcome: ConnectOutcome, inbox: seq<Incoming>, requestId: int) returns (r: Result<()>)
      requires IsRequestId(requestId)
      modifies this
      ensures r != Err(ConnectionError(AuthenticationFailedMessage))
      ensures !(IsPort(port) && outcome.Established?) ==> socket == Some(Handle(Unconnected, [], Decoded(inbox)))
      ensures !IsInt32(port) ==> r == Err(OverflowError)
      ensures IsInt32(port) && outcome.Unresolved? ==> r == Err(ConnectionError(ConnectErrorPrefix + outcome.reason))
      ensures !outcome.Unresolved? && !IsPort(port) ==> r == Err(OverflowError)
      ensures IsPort(port) && outcome.TimedOut? ==> r == Err(TimeoutError(ConnectTimeoutMessage))
      ensures IsPort(port) && outcome.Refused? ==> r == Err(ConnectionError(ConnectErrorPrefix + outcome.reason))
      ensures IsPort(port) && outcome.Established? ==>
                var frame := CreatePacket(requestId, Auth, password);
                if frame.Err? then r == Err(frame.error) && socket == Some(Handle(Connected, [], Decoded(inbox)))
                else
                  && socket == Some(Handle(Connected, [frame.value], Drop(Decoded(inbox), 1)))
                  && (r == Ok(()) <==> AuthDecision(Decoded(inbox)) == Ok(true))
                  && (r.Err? ==> r == Err(AuthDecision(Decoded(inbox)).error))
    {
      var connected := Connect(outcome, inbox);
      if connected.Err? {
        assert connected.error != OverflowError ==> connected.error.message[0] != AuthenticationFailedMessage[0];
        return Err(connected.error);
      }
      var authenticated := Authenticate(requestId);
      var frame := CreatePacket(requestId, Auth, password);
      assert frame.Ok? ==> [] + [frame.value] == [frame.value];
      if authenticated.Err? {
        return Err(authenticated.error);
      }
      r := if authenticated.value then Ok(()) else Err(ConnectionError(AuthenticationFailedMessage));
    }
  }
}
