/** The server side as the client sees it, and the decisions the client
    takes on what the server sends: the authentication verdict
    (serverdata_auth) and the empty-packet retry loop (send_command). */
module Exchange {
  import opened Wire
  import opened Outcomes
  import opened Codec

  /** What one call of receive_packet gets: the bytes one recv(4096)
      returned, nothing before the 10-second readiness wait expired, or a
      recv that raised because the server reset the connection. */
  datatype Incoming = Data(bytes: seq<Byte>) | Silence | Reset

  /** The errors receive_packet itself raises. */
  predicate IsReadError(e: Error) {
    e in {ConnectionError(DamagedPacketMessage), UnicodeDecodeError, TimeoutError(NoResponseMessage), ConnectionResetError}
  }

  /** receive_packet on one incoming item. */
  function ReadItem(item: Incoming): (r: Result<Packet>)
    ensures item.Silence? ==> r == Err(TimeoutError(NoResponseMessage))
    ensures item.Data? ==> r == ParsePacket(item.bytes)
    ensures item.Reset? ==> r == Err(ConnectionResetError)
    ensures r.Err? ==> IsReadError(r.error)
  {
    match item
    case Silence => Err(TimeoutError(NoResponseMessage))
    case Data(bytes) => ParsePacket(bytes)
    case Reset => Err(ConnectionResetError)
  }

  /** The replies of successive receive_packet calls, decoded. */
  type Replies = seq<Result<Packet>>

  /** What successive calls of receive_packet return on a server that sends
      inbox: each a packet or the error that call raised. */
  function Decoded(inbox: seq<Incoming>): (replies: Replies)
    ensures |replies| == |inbox|
    ensures forall k :: 0 <= k < |inbox| ==> replies[k] == ReadItem(inbox[k])
  {
    seq(|inbox|, k requires 0 <= k < |inbox| => ReadItem(inbox[k]))
  }

  /** Every error in the queue is one that receive_packet raises. */
  predicate ReadErrorsOnly(replies: Replies) {
    forall k :: 0 <= k < |replies| && replies[k].Err? ==> IsReadError(replies[k].error)
  }

  lemma DecodedReadErrorsOnly(inbox: seq<Incoming>)
    ensures ReadErrorsOnly(Decoded(inbox))
  {
  }

  /** The k-th reply. Once the queue is used up, the server sends nothing
      more and the readiness wait expires. */
  function ReplyAt(replies: Replies, k: nat): (r: Result<Packet>)
    ensures k >= |replies| ==> r == Err(TimeoutError(NoResponseMessage))
    ensures k < |replies| ==> r == replies[k]
  {
    if k < |replies| then replies[k] else Err(TimeoutError(NoResponseMessage))
  }

  /** The queue after n reads. */
  function Drop<T>(queue: seq<T>, n: nat): (rest: seq<T>)
    ensures |rest| == if n < |queue| then |queue| - n else 0
  {
    if n < |queue| then queue[n..] else []
  }

  lemma DropNothing<T>(queue: seq<T>)
    ensures Drop(queue, 0) == queue
  {
    if queue != [] {
      assert queue[0..] == queue;
    }
  }

  lemma DropDrop<T>(queue: seq<T>, m: nat, n: nat)
    ensures Drop(Drop(queue, m), n) == Drop(queue, m + n)
  {
  }

  // ---------------------------------------------------------------- auth

  /** serverdata_auth's verdict on the first reply: request id -1 means the
      password was rejected, any other reply is success. The id the client
      sent takes no part in it. */
  function AuthDecision(replies: Replies): (r: Result<bool>)
    ensures r == Ok(true) <==> ReplyAt(replies, 0).Ok? && ReplyAt(replies, 0).value.requestId != -1
    ensures ReplyAt(replies, 0).Ok? ==>
              (r == Err(ValueError(IncorrectPasswordMessage)) <==> ReplyAt(replies, 0).value.requestId == -1)
    ensures ReplyAt(replies, 0).Err? ==> r == Err(ReplyAt(replies, 0).error)
    ensures r != Ok(false)
  {
    match ReplyAt(replies, 0)
    case Err(e) => Err(e)
    case Ok(response) =>
      if response.requestId == -1 then Err(ValueError(IncorrectPasswordMessage)) else Ok(true)
  }

  // ----------------------------------------------------- command exchange

  /** The retry limit of send_command. */
  const MaxRetries: nat := 3

  /** The spurious reply some servers send before the real one: an empty
      packet of type 2. */
  predicate IsEmptyAck(p: Packet) {
    p.packetType == AuthResponse && p.body == []
  }

  /** The result of one command exchange: the command's result (the body
      send_command logs) or the error it raises, how many times the retry
      loop ran (one warning each), and the queue that is left. */
  datatype CommandResult = CommandResult(outcome: Result<string>, rereads: nat, rest: Replies)

  /** The while loop of send_command from the state (response, retries),
      followed by its check on the counter. */
  function RetryLoop(response: Packet, retries: nat, replies: Replies): (r: CommandResult)
    requires retries <= MaxRetries
    ensures retries <= r.rereads <= MaxRetries
    decreases MaxRetries - retries
  {
    if IsEmptyAck(response) && retries < MaxRetries then
      match ReplyAt(replies, 0)
      case Err(e) => CommandResult(Err(e), retries + 1, Drop(replies, 1))
      case Ok(next) =>
        RetryLoop(next, retries + 1, Drop(replies, 1))
    else
      if retries >= MaxRetries then CommandResult(Err(GenericException(NotRespondingMessage)), retries, replies)
      else CommandResult(Ok(response.body), retries, replies)
  }

  /** Every iteration of the loop consumes one reply and nothing else does. */
  lemma {:induction false} RetryLoopRest(response: Packet, retries: nat, replies: Replies)
    requires retries <= MaxRetries
    ensures var r := RetryLoop(response, retries, replies);
            r.rest == Drop(replies, r.rereads - retries)
    decreases MaxRetries - retries
  {
    var r := RetryLoop(response, retries, replies);
    if IsEmptyAck(response) && retries < MaxRetries {
      var remaining := Drop(replies, 1);
      match ReplyAt(replies, 0)
      case Err(e) =>
        assert r.rest == remaining && r.rereads == retries + 1;
      case Ok(next) =>
        var inner := RetryLoop(next, retries + 1, remaining);
        assert r == inner;
        RetryLoopRest(next, retries + 1, remaining);
        DropDrop(replies, 1, inner.rereads - retries - 1);
    } else {
      assert r.rest == replies && r.rereads == retries;
      DropNothing(replies);
    }
  }

  /** Everything send_command does after sending: the first read, then the loop. */
  function CommandExchange(replies: Replies): (r: CommandResult)
    ensures r.rereads <= MaxRetries
    ensures r.rest == Drop(replies, r.rereads + 1)
  {
    match ReplyAt(replies, 0)
    case Err(e) => CommandResult(Err(e), 0, Drop(replies, 1))
    case Ok(response) =>
      var r := RetryLoop(response, 0, Drop(replies, 1));
      RetryLoopRest(response, 0, Drop(replies, 1));
      DropDrop(replies, 1, r.rereads);
      r
  }

  // ------------------------------------------------ reference definition

  /** The k-th read yields an empty type-2 packet. */
  predicate EmptyAckAt(replies: Replies, k: nat) {
    ReplyAt(replies, k).Ok? && IsEmptyAck(ReplyAt(replies, k).value)
  }

  /** How many of the first three reads are empty acknowledgements before
      the first one that is not. */
  function SkippedAcks(replies: Replies): (k: nat)
    ensures k <= MaxRetries
    ensures forall j :: 0 <= j < k ==> EmptyAckAt(replies, j)
    ensures k < MaxRetries ==> !EmptyAckAt(replies, k)
  {
    if !EmptyAckAt(replies, 0) then 0
    else if !EmptyAckAt(replies, 1) then 1
    else if !EmptyAckAt(replies, 2) then 2
    else 3
  }

  /** The command's outcome stated without the loop: read k (k the number
      of leading empty acknowledgements, at most three) decides. A failed
      read raises its error; otherwise three acknowledgements mean the
      server is unresponsive, and fewer mean read k carries the result. */
  function ReferenceOutcome(replies: Replies): (r: Result<string>)
    ensures var k := SkippedAcks(replies);
            r.Ok? ==> k < MaxRetries && ReplyAt(replies, k).Ok? && r.value == ReplyAt(replies, k).value.body
    ensures var k := SkippedAcks(replies);
            ReplyAt(replies, k).Err? ==> r == Err(ReplyAt(replies, k).error)
    ensures var k := SkippedAcks(replies);
            k < MaxRetries && ReplyAt(replies, k).Ok? ==> r == Ok(ReplyAt(replies, k).value.body)
    ensures SkippedAcks(replies) == MaxRetries && ReplyAt(replies, MaxRetries).Ok? ==>
              r == Err(GenericException(NotRespondingMessage))
  {
    var k := SkippedAcks(replies);
    match ReplyAt(replies, k)
    case Err(e) => Err(e)
    case Ok(p) => if k == MaxRetries then Err(GenericException(NotRespondingMessage)) else Ok(p.body)
  }

  /** The loop entered at read j, after j empty acknowledgements, ends as the
      reference says. */
  lemma {:induction false} RetryLoopFrom(replies: Replies, j: nat, response: Packet)
    requires j <= MaxRetries
    requires forall i :: 0 <= i < j ==> EmptyAckAt(replies, i)
    requires ReplyAt(replies, j) == Ok(response)
    ensures RetryLoop(response, j, Drop(replies, j + 1))
            == CommandResult(ReferenceOutcome(replies), SkippedAcks(replies), Drop(replies, SkippedAcks(replies) + 1))
    decreases MaxRetries - j
  {
    var k := SkippedAcks(replies);
    if IsEmptyAck(response) && j < MaxRetries {
      assert EmptyAckAt(replies, j);
      DropDrop(replies, j + 1, 1);
      match ReplyAt(replies, j + 1)
      case Err(e) =>
        assert k == j + 1;
      case Ok(next) =>
        RetryLoopFrom(replies, j + 1, next);
    } else {
      assert k == j;
    }
  }

  /** The command exchange agrees with the reference definition, runs the
      retry loop SkippedAcks times, and consumes exactly one more read. */
  lemma ExchangeMatchesReference(replies: Replies)
    ensures CommandExchange(replies)
            == CommandResult(ReferenceOutcome(replies), SkippedAcks(replies), Drop(replies, SkippedAcks(replies) + 1))
  {
    match ReplyAt(replies, 0)
    case Err(e) =>
    case Ok(response) =>
      RetryLoopFrom(replies, 0, response);
  }

  /** send_command reads at most four times, the retry counter never passes
      three, and the queue left over is what follows the reads. */
  lemma AtMostFourReads(replies: Replies)
    ensures CommandExchange(replies).rereads <= MaxRetries
    ensures CommandExchange(replies).rest == Drop(replies, CommandExchange(replies).rereads + 1)
    ensures |replies| - |CommandExchange(replies).rest| <= MaxRetries + 1
  {
    ExchangeMatchesReference(replies);
  }

  /** send_command raises "Server is not responding properly" exactly when
      the first three reads are empty acknowledgements and the fourth read
      returns a packet, whatever that packet is. */
  lemma ExhaustionIff(replies: Replies)
    requires ReadErrorsOnly(replies)
    ensures CommandExchange(replies).outcome == Err(GenericException(NotRespondingMessage))
            <==> EmptyAckAt(replies, 0) && EmptyAckAt(replies, 1) && EmptyAckAt(replies, 2) && ReplyAt(replies, 3).Ok?
  {
    ExchangeMatchesReference(replies);
  }

  /** send_command succeeds exactly when a read among the first three is
      not an empty acknowledgement and every read before it is one; the
      result is that read's body. */
  lemma SuccessIff(replies: Replies)
    ensures var k := SkippedAcks(replies);
            CommandExchange(replies).outcome.Ok?
            <==> k < MaxRetries && ReplyAt(replies, k).Ok?
    ensures var k := SkippedAcks(replies);
            CommandExchange(replies).outcome.Ok? ==>
              && CommandExchange(replies).outcome.value == ReplyAt(replies, k).value.body
              && !IsEmptyAck(ReplyAt(replies, k).value)
              && CommandExchange(replies).rereads == k
  {
    ExchangeMatchesReference(replies);
  }

  /** A read that fails stops the exchange with that read's error, and
      every error other than the unresponsive-server one comes from a read. */
  lemma ReadErrorPropagates(replies: Replies)
    ensures var k := SkippedAcks(replies);
            ReplyAt(replies, k).Err? ==> CommandExchange(replies).outcome == Err(ReplyAt(replies, k).error)
    ensures var k, e := SkippedAcks(replies), CommandExchange(replies).outcome;
            e.Err? && !e.error.GenericException? ==> ReplyAt(replies, k).Err?
  {
    ExchangeMatchesReference(replies);
  }
}
