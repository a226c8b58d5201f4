/**
 The reused TCP connection of the register scan, against a device and a network
 that may delay, refuse, reset, close and answer with any frame they like.
 */
module ModbusLink {
  import opened Text
  import opened Modbus

  /** One frame put on the wire, with all the device will ever send for it on that connection. */
  datatype Sent = Sent(frame: seq<byte>, reply: seq<byte>)

  datatype Connected = Up | AddressInvalid | Down

  datatype SendResult = AllSent | SendTimedOut | SendLost

  datatype Received = Chunk(data: seq<byte>) | TimedOut | Reset | Closed

  /** One socket operation with its result. */
  datatype Event = DidConnect(connected: Connected) | DidSend(sent: SendResult) | DidRecv(received: Received)

  /** Whatever the network does: at most one complete frame answers a request, on its own connection. */
  class Wire {
    /** What the device has sent on the present connection and nobody has read. */
    var unread: seq<byte>
    /** Every frame sent so far, on any connection. */
    ghost var sent: seq<Sent>
    /** Every socket operation so far. */
    ghost var log: seq<Event>

    constructor ()
      ensures sent == [] && log == []
    {
      unread, sent, log := [], [], [];
    }

    method Connect() returns (r: Connected)
      modifies this
      ensures unread == [] && sent == old(sent) && log == old(log) + [DidConnect(r)]
    {
      unread := [];
      r := *;
      log := log + [DidConnect(r)];
    }

    method SendAll(frame: seq<byte>) returns (r: SendResult)
      modifies this
      ensures old(unread) <= unread && log == old(log) + [DidSend(r)]
      ensures var reply := unread[|old(unread)|..];
        (reply == [] || IsFrame(reply)) && sent == old(sent) + [Sent(frame, reply)]
    {
      r := *;
      var reply: seq<byte> := *;
      if reply != [] && !IsFrame(reply) {
        reply := [];
      }
      sent := sent + [Sent(frame, reply)];
      unread := unread + reply;
      log := log + [DidSend(r)];
      assert unread[|old(unread)|..] == reply;
    }

    /** Any part of what is there, or a timeout although something is there, or the end. */
    method Recv(size: nat) returns (r: Received)
      requires size > 0
      modifies this`unread, this`log
      ensures log == old(log) + [DidRecv(r)]
      ensures r.Chunk? ==> 0 < |r.data| <= size && old(unread) == r.data + unread
      ensures !r.Chunk? ==> unread == old(unread)
    {
      r := *;
      var n: nat := *;
      if r.Chunk? {
        if 0 < n <= size && n <= |unread| {
          r := Chunk(unread[..n]);
          unread := unread[n..];
        } else {
          r := TimedOut;
        }
      }
      log := log + [DidRecv(r)];
    }
  }

  /** One call of the link with its result. */
  datatype Call = Call(offset: nat, count: nat, outcome: Outcome)

  /** How one exchange ends: an answer, a timeout, or a lost connection (an OSError or a struct error). */
  datatype Attempt = Answer(outcome: Outcome) | Late | Lost

  // ------------------------------------------------------- how the operations of a call follow each other

  predicate IsTimeout(e: Event) {
    e == DidSend(SendTimedOut) || e == DidRecv(TimedOut)
  }

  predicate IsLoss(e: Event) {
    e == DidSend(SendLost) || e == DidRecv(Reset) || e == DidRecv(Closed)
  }

  predicate EndsInTimeout(log: seq<Event>) {
    log != [] && IsTimeout(log[|log| - 1])
  }

  predicate EndsInLoss(log: seq<Event>) {
    log != [] && IsLoss(log[|log| - 1])
  }

  /** Send on a fresh connection, receive after a send, connect again after a loss, nothing after a timeout. */
  predicate MayFollow(e: Event, next: Event) {
    match e
    case DidConnect(r) => r == Up && next.DidSend?
    case DidSend(r) => if r == AllSent then next.DidRecv? else r == SendLost && next.DidConnect?
    case DidRecv(r) => if r.Chunk? then next.DidRecv? else (r == Reset || r == Closed) && next.DidConnect?
  }

  ghost predicate Chain(log: seq<Event>) {
    forall i | 0 <= i < |log| - 1 :: MayFollow(log[i], log[i + 1])
  }

  function Losses(log: seq<Event>): nat {
    if log == [] then 0 else Losses(log[..|log| - 1]) + if IsLoss(log[|log| - 1]) then 1 else 0
  }

  /** All operations of one receive: chunks up to the last, which may have ended otherwise. */
  ghost predicate Receiving(log: seq<Event>) {
    forall i | 0 <= i < |log| :: log[i].DidRecv? && (i < |log| - 1 ==> log[i].received.Chunk?)
  }

  lemma ReceivingJoin(before: seq<Event>, more: seq<Event>)
    requires Receiving(before) && Receiving(more) && !EndsInTimeout(before) && !EndsInLoss(before)
    ensures Receiving(before + more)
    ensures EndsInTimeout(before + more) <==> EndsInTimeout(more)
    ensures EndsInLoss(before + more) <==> EndsInLoss(more)
  {
    assert more == [] ==> before + more == before;
  }

  lemma ChainJoin(before: seq<Event>, more: seq<Event>)
    requires Chain(before) && Chain(more)
    requires before != [] && more != [] ==> MayFollow(before[|before| - 1], more[0])
    ensures Chain(before + more)
  {
  }

  lemma {:induction false} LossesJoin(before: seq<Event>, more: seq<Event>)
    ensures Losses(before + more) == Losses(before) + Losses(more)
  {
    if more == [] {
      assert before + more == before;
    } else {
      var n := |more| - 1;
      assert (before + more)[..|before| + n] == before + more[..n];
      LossesJoin(before, more[..n]);
    }
  }

  lemma {:induction false} LossesOfOneAttempt(log: seq<Event>)
    requires forall i | 0 <= i < |log| - 1 :: !IsLoss(log[i])
    ensures Losses(log) == if EndsInLoss(log) then 1 else 0
  {
    if |log| > 1 {
      LossesOfOneAttempt(log[..|log| - 1]);
    }
  }

  /** The operations of one whole call on an open or closed link, by its outcome. */
  ghost predicate CallLog(log: seq<Event>, open: bool, o: Outcome) {
    && log != [] && Chain(log) && (if open then log[0].DidSend? else log[0].DidConnect?)
    && (o == NoAnswer <==> EndsInTimeout(log))
    && (o == Broken(ConnectionLost) <==> EndsInLoss(log))
    && (o == Broken(ConnectionLost) <==> Losses(log) == 2)
    && (o == Broken(InvalidAddress) <==> log[|log| - 1] == DidConnect(AddressInvalid))
    && (o == Broken(CannotConnect) <==> log[|log| - 1] == DidConnect(Down))
    && Losses(log) <= 2
  }

  /** The operations of one attempt on an open or closed link, by how it ends. */
  ghost predicate AttemptLog(log: seq<Event>, open: bool, a: Attempt) {
    && log != [] && Chain(log) && (if open then log[0].DidSend? else log[0].DidConnect?)
    && (a == Late <==> EndsInTimeout(log))
    && (a == Lost <==> EndsInLoss(log))
    && (a == Answer(Broken(InvalidAddress)) <==> log[|log| - 1] == DidConnect(AddressInvalid))
    && (a == Answer(Broken(CannotConnect)) <==> log[|log| - 1] == DidConnect(Down))
    && Losses(log) == if EndsInLoss(log) then 1 else 0
  }

  lemma SendAndReceive(send: Event, receive: seq<Event>, a: Attempt)
    requires send.DidSend? && Receiving(receive) && (send.sent != AllSent ==> receive == [])
    requires match send.sent
      case AllSent => (a == Late <==> EndsInTimeout(receive)) && (a == Lost <==> EndsInLoss(receive))
      case SendTimedOut => a == Late
      case SendLost => a == Lost
    requires !NotConnected(a)
    ensures AttemptLog([send] + receive, true, a)
  {
    LossesOfOneAttempt([send] + receive);
  }

  lemma ConnectFirst(log: seq<Event>, a: Attempt)
    requires AttemptLog(log, true, a)
    ensures AttemptLog([DidConnect(Up)] + log, false, a)
  {
    ChainJoin([DidConnect(Up)], log);
    LossesOfOneAttempt([DidConnect(Up)]);
    LossesJoin([DidConnect(Up)], log);
  }

  function OutcomeOf(a: Attempt): Outcome {
    match a
    case Answer(o) => o
    case Late => NoAnswer
    case Lost => Broken(ConnectionLost)
  }

  lemma FirstAttempt(log: seq<Event>, open: bool, a: Attempt)
    requires AttemptLog(log, open, a) && a != Lost
    requires a.Answer? ==> a.outcome != NoAnswer && a.outcome != Broken(ConnectionLost)
    ensures CallLog(log, open, OutcomeOf(a))
  {
  }

  lemma SecondAttempt(log: seq<Event>, open: bool, more: seq<Event>, a: Attempt)
    requires AttemptLog(log, open, Lost) && AttemptLog(more, false, a)
    requires a.Answer? ==> a.outcome != NoAnswer && a.outcome != Broken(ConnectionLost)
    ensures CallLog(log + more, open, OutcomeOf(a))
  {
    ChainJoin(log, more);
    LossesJoin(log, more);
  }

  // ------------------------------------------------------------- what an attempt and a call promise

  predicate CountFits(count: nat) {
    1 <= count <= MAX_REGISTERS_PER_READ
  }

  predicate AddressFits(unit: int, offset: nat) {
    FieldsFit(1, unit, MODBUS_BASE_ADDRESS + offset)
  }

  /** Everything one attempt promises, by the frames it sent and the operations it made. */
  ghost predicate AttemptDone(asked: seq<Sent>, log: seq<Event>, unit: int, offset: nat, count: nat, open: bool,
                              a: Attempt) {
    && RequestsFor(asked, unit, offset, count, 1)
    && (CountFits(count) && AddressFits(unit, offset) ==> AttemptLog(log, open, a))
    && (CountFits(count) && !AddressFits(unit, offset) ==> a == Lost || NotConnected(a))
    && (!CountFits(count) ==> a == Answer(BadCount) || NotConnected(a))
    && (NotConnected(a) ==> !open && asked == [])
    && (a.Late? || (a.Lost? && AddressFits(unit, offset)) ==> |asked| == 1)
    && (a.Answer? && (a.outcome.Words? || a.outcome.Refused? || OutOfSync(a.outcome)) ==>
          AnsweredByLast(asked, count, a.outcome))
    && (a.Answer? ==>
          match a.outcome
          case Words(words) => |words| == count
          case Refused(_) => true
          case NoAnswer => false
          case Broken(_) => NotConnected(a) || OutOfSync(a.outcome)
          case BadCount => !CountFits(count))
  }

  /** Everything a call promises, by the frames it sent and the operations it made. */
  ghost predicate CallDone(asked: seq<Sent>, log: seq<Event>, unit: int, offset: nat, count: nat, open: bool,
                           o: Outcome) {
    && RequestsFor(asked, unit, offset, count, 2)
    && (CountFits(count) && AddressFits(unit, offset) ==> CallLog(log, open, o))
    && (CountFits(count) && !AddressFits(unit, offset) ==>
          o == Broken(ConnectionLost) || o == Broken(CannotConnect) || o == Broken(InvalidAddress))
    && (!CountFits(count) ==> o == BadCount || (!open && NotConnected(Answer(o))))
    && (o.BadCount? ==> !CountFits(count))
    && (o.NoAnswer? ==> asked != [])
    && (o == Broken(ConnectionLost) && AddressFits(unit, offset) ==> |asked| == 2)
    && (o.Words? || o.Refused? || OutOfSync(o) ==> AnsweredByLast(asked, count, o))
    && (o.Words? ==> |o.words| == count)
  }

  /** What holds before the first attempt and, after a lost one, before the second. */
  ghost predicate Ready(asked: seq<Sent>, log: seq<Event>, unit: int, offset: nat, count: nat, open: bool,
                        attempt: int, connected: bool) {
    if attempt == 1 then asked == [] && log == [] && connected == open
    else attempt == 2 && !connected && AttemptDone(asked, log, unit, offset, count, open, Lost)
  }

  lemma NothingTried(unit: int, offset: nat, count: nat, open: bool)
    ensures Ready([], [], unit, offset, count, open, 1, open)
  {
  }

  lemma NoConnection(r: Connected, unit: int, offset: nat, count: nat, a: Attempt)
    requires r != Up && a == Answer(Broken(if r == AddressInvalid then InvalidAddress else CannotConnect))
    ensures AttemptDone([], [DidConnect(r)], unit, offset, count, false, a)
  {
    LossesOfOneAttempt([DidConnect(r)]);
  }

  lemma FreshConnection(asked: seq<Sent>, log: seq<Event>, unit: int, offset: nat, count: nat, a: Attempt)
    requires AttemptDone(asked, log, unit, offset, count, true, a)
    ensures AttemptDone(asked, [DidConnect(Up)] + log, unit, offset, count, false, a)
  {
    hide RequestsFor, AnsweredByLast;
    if CountFits(count) && AddressFits(unit, offset) {
      ConnectFirst(log, a);
    }
  }

  lemma NothingSent(tid: word, unit: int, offset: nat, count: nat)
    ensures !CountFits(count) ==> AttemptDone([], [], unit, offset, count, true, Answer(BadCount))
    ensures (CountFits(count) && !FieldsFit(tid, unit, MODBUS_BASE_ADDRESS + offset) ==>
      AttemptDone([], [], unit, offset, count, true, Lost))
  {
  }

  /** A frame sent and what came back for it. */
  lemma OneExchange(s: Sent, tid: word, r: SendResult, receive: seq<Event>, unit: int, offset: nat, count: nat,
                    a: Attempt)
    requires CountFits(count) && FieldsFit(tid, unit, MODBUS_BASE_ADDRESS + offset) && tid >= 1
    requires ParseRequest(s.frame) == Some(Request(tid, unit, MODBUS_BASE_ADDRESS + offset, count))
    requires Receiving(receive) && (r != AllSent ==> receive == [])
    requires match r
      case AllSent => (a == Late <==> EndsInTimeout(receive)) && (a == Lost <==> EndsInLoss(receive))
      case SendTimedOut => a == Late
      case SendLost => a == Lost
    requires a.Answer? ==> IsFrame(s.reply) && a.outcome == Interpret(s.reply, tid, count)
    ensures AttemptDone([s], [DidSend(r)] + receive, unit, offset, count, true, a)
  {
    hide AttemptLog, Receiving, IsFrame, ParseRequest;
    SendAndReceive(DidSend(r), receive, a);
  }

  /** What one more attempt makes of a call. */
  lemma AttemptOfCall(asked: seq<Sent>, log: seq<Event>, unit: int, offset: nat, count: nat, open: bool, attempt: int,
                      connected: bool, mine: seq<Sent>, more: seq<Event>, a: Attempt)
    requires Ready(asked, log, unit, offset, count, open, attempt, connected)
    requires AttemptDone(mine, more, unit, offset, count, connected, a)
    ensures match a
      case Late => CallDone(asked + mine, log + more, unit, offset, count, open, NoAnswer)
      case Answer(o) => CallDone(asked + mine, log + more, unit, offset, count, open, o)
      case Lost =>
        if attempt == 1 then Ready(asked + mine, log + more, unit, offset, count, open, 2, false)
        else CallDone(asked + mine, log + more, unit, offset, count, open, Broken(ConnectionLost))
  {
    hide RequestsFor, AnsweredByLast, AttemptLog, CallLog;
    if attempt == 1 {
      assert asked + mine == mine && log + more == more;
      RequestsMore(mine, unit, offset, count);
      if CountFits(count) && AddressFits(unit, offset) {
        if a != Lost {
          FirstAttempt(more, open, a);
        }
      }
    } else {
      RequestsJoin(asked, mine, unit, offset, count);
      if a.Answer? && (a.outcome.Words? || a.outcome.Refused? || OutOfSync(a.outcome)) {
        AnswerJoin(asked, mine, count, a.outcome);
      }
      if CountFits(count) && AddressFits(unit, offset) {
        SecondAttempt(log, open, more, a);
      }
    }
  }

  /** The three errors of a reply that is not the one expected. */
  predicate OutOfSync(o: Outcome) {
    o == Broken(HeaderMismatch) || o == Broken(MalformedReply) || o == Broken(LengthMismatch)
  }

  predicate NotConnected(a: Attempt) {
    a == Answer(Broken(InvalidAddress)) || a == Answer(Broken(CannotConnect))
  }

  datatype Read = Bytes(data: seq<byte>) | ReadTimeout | ReadLost

  /** The frames `sent` are requests for these registers, and there are at most `limit` of them. */
  ghost predicate RequestsFor(sent: seq<Sent>, unit: int, offset: nat, count: nat, limit: nat) {
    && |sent| <= limit
    && forall i | 0 <= i < |sent| :: AsksFor(sent[i].frame, unit, offset, count)
  }

  predicate AsksFor(frame: seq<byte>, unit: int, offset: nat, count: nat) {
    match ParseRequest(frame)
    case None => false
    case Some(r) => r.tid >= 1 && r.unit == unit && r.address == MODBUS_BASE_ADDRESS + offset && r.count == count
  }

  predicate HasTid(frame: seq<byte>, tid: nat) {
    match ParseRequest(frame)
    case None => false
    case Some(r) => r.tid == tid
  }

  /** The frame asks for registers among these only. */
  predicate AsksWithin(frame: seq<byte>, unit: int, offset: nat, count: nat) {
    match ParseRequest(frame)
    case None => false
    case Some(r) =>
      && r.tid >= 1 && r.unit == unit && 1 <= r.count <= MAX_REGISTERS_PER_READ
      && MODBUS_BASE_ADDRESS + offset <= r.address
      && r.address + r.count <= MODBUS_BASE_ADDRESS + offset + count
  }

  ghost predicate AllWithin(sent: seq<Sent>, unit: int, offset: nat, count: nat) {
    forall i | 0 <= i < |sent| :: AsksWithin(sent[i].frame, unit, offset, count)
  }

  lemma RequestsWithin(s0: seq<Sent>, s1: seq<Sent>, s2: seq<Sent>, unit: int, at: nat, n: nat, limit: nat,
                       offset: nat, count: nat)
    requires s0 <= s1 <= s2
    requires AllWithin(s1[|s0|..], unit, offset, count) && RequestsFor(s2[|s1|..], unit, at, n, limit)
    requires offset <= at && at + n <= offset + count && 1 <= n <= MAX_REGISTERS_PER_READ
    ensures AllWithin(s2[|s0|..], unit, offset, count) && |s2| <= |s1| + limit
  {
    assert s2[|s0|..] == s1[|s0|..] + s2[|s1|..];
  }

  /** The outcome is what the device answered to the last of these frames. */
  ghost predicate AnsweredByLast(sent: seq<Sent>, count: nat, outcome: Outcome) {
    && sent != []
    && var last := sent[|sent| - 1];
       && IsFrame(last.reply)
       && ParseRequest(last.frame).Some?
       && outcome == Interpret(last.reply, ParseRequest(last.frame).value.tid, count)
  }

  lemma RequestsMore(sent: seq<Sent>, unit: int, offset: nat, count: nat)
    requires RequestsFor(sent, unit, offset, count, 1)
    ensures RequestsFor(sent, unit, offset, count, 2)
  {
  }

  lemma RequestsJoin(before: seq<Sent>, more: seq<Sent>, unit: int, offset: nat, count: nat)
    requires RequestsFor(before, unit, offset, count, 1) && RequestsFor(more, unit, offset, count, 1)
    ensures RequestsFor(before + more, unit, offset, count, 2)
  {
  }

  lemma Appended<T>(before: seq<T>, mine: seq<T>, now: seq<T>)
    requires before + mine <= now
    ensures before <= now
    ensures var more := now[|before| + |mine|..]; now == before + (mine + more) && now[|before|..] == mine + more
  {
  }

  lemma AnswerJoin(before: seq<Sent>, more: seq<Sent>, count: nat, outcome: Outcome)
    requires AnsweredByLast(more, count, outcome)
    ensures AnsweredByLast(before + more, count, outcome)
  {
    assert (before + more)[|before + more| - 1] == more[|more| - 1];
  }

  /** The frame asked for these registers, and its reply means this outcome. */
  predicate Carries(s: Sent, unit: int, c: Call) {
    && AsksFor(s.frame, unit, c.offset, c.count)
    && IsFrame(s.reply)
    && c.outcome == Interpret(s.reply, ParseRequest(s.frame).value.tid, c.count)
  }

  /** Every answer and every refusal of the calls came from the reply to one of these frames. */
  ghost predicate Justified(run: seq<Call>, sent: seq<Sent>, unit: int) {
    forall i | 0 <= i < |run| && (run[i].outcome.Words? || run[i].outcome.Refused?) ::
      exists j | 0 <= j < |sent| :: Carries(sent[j], unit, run[i])
  }

  lemma JustifiedCall(sent: seq<Sent>, unit: int, c: Call, limit: nat)
    requires RequestsFor(sent, unit, c.offset, c.count, limit)
    requires c.outcome.Words? || c.outcome.Refused? ==> AnsweredByLast(sent, c.count, c.outcome)
    ensures Justified([c], sent, unit)
  {
    if c.outcome.Words? || c.outcome.Refused? {
      assert Carries(sent[|sent| - 1], unit, c);
    }
  }

  lemma NothingJustified(sent: seq<Sent>, unit: int)
    ensures Justified([], sent, unit)
  {
  }

  /** Calls one after the other, each with the frames sent for it. */
  lemma JustifiedJoin(s0: seq<Sent>, s1: seq<Sent>, s2: seq<Sent>, unit: int, run: seq<Call>, more: seq<Call>)
    requires s0 <= s1 <= s2
    requires Justified(run, s1[|s0|..], unit) && Justified(more, s2[|s1|..], unit)
    ensures Justified(run + more, s2[|s0|..], unit)
  {
    var sent, mine, latest, all := s2[|s0|..], s1[|s0|..], s2[|s1|..], run + more;
    forall i | 0 <= i < |all| && (all[i].outcome.Words? || all[i].outcome.Refused?)
      ensures exists j | 0 <= j < |sent| :: Carries(sent[j], unit, all[i])
    {
      if i < |run| {
        assert all[i] == run[i];
        var j :| 0 <= j < |mine| && Carries(mine[j], unit, run[i]);
        assert sent[j] == mine[j];
      } else {
        assert all[i] == more[i - |run|];
        var j :| 0 <= j < |latest| && Carries(latest[j], unit, more[i - |run|]);
        assert sent[|mine| + j] == latest[j];
      }
    }
  }

  class Link {
    const wire: Wire
    const unit: int
    var connected: bool
    var tid: nat
    /** The calls of `Read` so far. */
    ghost var calls: seq<Call>

    /** Between calls an open connection has nothing outstanding: not one unread byte. */
    ghost predicate InSync()
      reads this, wire
    {
      && tid <= 0xFFFF
      && (connected ==> wire.unread == [])
    }

    constructor (wire: Wire, unit: int)
      ensures InSync() && this.wire == wire && this.unit == unit && calls == [] && !connected
    {
      this.wire, this.unit := wire, unit;
      connected, tid, calls := false, 0, [];
    }

    method Close()
      modifies this`connected
      ensures !connected && (tid <= 0xFFFF ==> InSync())
    {
      connected := false;
    }

    method Connect() returns (error: Option<ScanError>)
      modifies this`connected, wire
      ensures wire.sent == old(wire.sent) && wire.unread == []
      ensures connected <==> error.None?
      ensures wire.log == old(wire.log) +
        [DidConnect(if error.None? then Up else if error.value == InvalidAddress then AddressInvalid else Down)]
      ensures error.Some? ==> error.value in {InvalidAddress, CannotConnect}
    {
      Close();
      var r := wire.Connect();
      match r
      case Up => connected := true; error := None;
      case AddressInvalid => error := Some(InvalidAddress);
      case Down => error := Some(CannotConnect);
    }

    method Recv(size: nat) returns (r: Read)
      modifies wire`unread, wire`log
      ensures old(wire.log) <= wire.log
      ensures var log := wire.log[|old(wire.log)|..];
        && Receiving(log)
        && (r == ReadTimeout <==> EndsInTimeout(log))
        && (r == ReadLost <==> EndsInLoss(log))
      ensures r.Bytes? ==> |r.data| == size && old(wire.unread) == r.data + wire.unread
    {
      ghost var before, log := wire.log, [];
      var data: seq<byte> := [];
      while |data| < size
        invariant |data| <= size && old(wire.unread) == data + wire.unread
        invariant wire.log == before + log
        invariant forall i | 0 <= i < |log| :: log[i].DidRecv? && log[i].received.Chunk?
      {
        var chunk := wire.Recv(size - |data|);
        log := log + [DidRecv(chunk)];
        assert wire.log[|before|..] == log;
        match chunk
        case Chunk(more) => data := data + more;
        case TimedOut => return ReadTimeout;
        case Reset => return ReadLost;
        case Closed => return ReadLost;
      }
      assert wire.log[|before|..] == log;
      r := Bytes(data);
    }

    /** Read one complete reply to the request just sent. */
    method Receive(count: nat) returns (a: Attempt)
      requires wire.unread == [] || IsFrame(wire.unread)
      requires tid <= 0xFFFF
      modifies wire`unread, wire`log
      ensures old(wire.log) <= wire.log
      ensures var log := wire.log[|old(wire.log)|..];
        Receiving(log) && (a == Late <==> EndsInTimeout(log)) && (a == Lost <==> EndsInLoss(log))
      ensures a.Answer? ==> IsFrame(old(wire.unread)) && a.outcome == Interpret(old(wire.unread), tid, count)
      ensures a.Answer? ==> !a.outcome.NoAnswer? && (a.outcome.Broken? || wire.unread == [])
    {
      hide Receiving, EndsInTimeout, EndsInLoss;
      ghost var reply, log0 := wire.unread, wire.log;
      var header := Recv(MBAP_LEN);
      ghost var log1 := wire.log;
      match header {
        case ReadTimeout => return Late;
        case ReadLost => return Lost;
        case Bytes(h) =>
          assert h == reply[..MBAP_LEN];
          assert WordAt(h, 0) == WordAt(reply, 0) && WordAt(h, 2) == WordAt(reply, 2)
            && WordAt(h, 4) == WordAt(reply, 4);
          if WordAt(h, 0) != tid || WordAt(h, 2) != 0 || !(3 <= WordAt(h, 4) <= 254) {
            return Answer(Broken(HeaderMismatch));
          }
          assert wire.unread == reply[MBAP_LEN..];
          var pdu := Recv(WordAt(h, 4) - 1);
          ReceivingJoin(log1[|log0|..], wire.log[|log1|..]);
          assert wire.log[|log0|..] == log1[|log0|..] + wire.log[|log1|..];
          match pdu {
            case ReadTimeout => return Late;
            case ReadLost => return Lost;
            case Bytes(p) =>
              assert p == reply[MBAP_LEN..] && wire.unread == [];
              if p[0] == READ_HOLDING_REGISTERS + EXCEPTION_FLAG {
                return Answer(Refused(p[1]));
              }
              if p[0] != READ_HOLDING_REGISTERS || p[1] != 2 * count {
                return Answer(Broken(MalformedReply));
              }
              if |p| != 2 + 2 * count {
                return Answer(Broken(LengthMismatch));
              }
              return Answer(Words(Registers(p[2..])));
          }
      }
    }

    method Exchange(offset: nat, count: nat) returns (a: Attempt)
      requires connected && InSync()
      modifies this`tid, wire
      ensures tid == old(tid) % 0xFFFF + 1
      ensures forall i | |old(wire.sent)| <= i < |wire.sent| :: HasTid(wire.sent[i].frame, tid)
      ensures old(wire.sent) <= wire.sent && old(wire.log) <= wire.log
      ensures AttemptDone(wire.sent[|old(wire.sent)|..], wire.log[|old(wire.log)|..], unit, offset, count, true, a)
      ensures a.Answer? ==> !a.outcome.NoAnswer? && (a.outcome.Broken? || wire.unread == [])
    {
      hide AttemptDone, FieldsFit, Interpret, EndsInTimeout, EndsInLoss, ParseRequest;
      ghost var before, log0 := wire.sent, wire.log;
      tid := tid % 0xFFFF + 1;
      assert wire.log[|log0|..] == [];
      RequestRoundTrip(tid, unit, READ_HOLDING_REGISTERS, offset, count);
      var built := BuildRequest(tid, unit, READ_HOLDING_REGISTERS, offset, count);
      assert wire.sent[|before|..] == [];
      NothingSent(tid, unit, offset, count);
      match built {
        case Refusal(CountOutOfRange) => return Answer(BadCount);
        case Refusal(_) => return Lost;
        case Frame(frame) =>
          var r := wire.SendAll(frame);
          ghost var reply := wire.unread;
          assert reply[0..] == reply;
          assert wire.sent[|before|..] == [Sent(frame, reply)];
          ghost var log1 := wire.log;
          match r {
            case SendTimedOut => a := Late;
            case SendLost => a := Lost;
            case AllSent => a := Receive(count);
          }
          OneExchange(Sent(frame, reply), tid, r, wire.log[|log1|..], unit, offset, count, a);
          assert wire.log[|log0|..] == [DidSend(r)] + wire.log[|log1|..];
      }
    }

    /** One attempt: connect where no connection is open, then exchange. */
    method TryOnce(offset: nat, count: nat) returns (a: Attempt)
      requires InSync()
      modifies this`connected, this`tid, wire
      ensures tid <= 0xFFFF
      ensures old(wire.sent) <= wire.sent && old(wire.log) <= wire.log
      ensures AttemptDone(wire.sent[|old(wire.sent)|..], wire.log[|old(wire.log)|..], unit, offset, count,
                          old(connected), a)
      ensures a.Answer? ==> !a.outcome.NoAnswer? && (a.outcome.Broken? || (connected && InSync()))
    {
      hide AttemptDone;
      ghost var log0, sent0 := wire.log, wire.sent;
      if !connected {
        var error := Connect();
        ghost var r := wire.log[|log0|].connected;
        assert wire.log[|log0|..] == [DidConnect(r)] && wire.sent[|sent0|..] == [];
        if error.Some? {
          NoConnection(r, unit, offset, count, Answer(Broken(error.value)));
          return Answer(Broken(error.value));
        }
      }
      ghost var log1 := wire.log;
      a := Exchange(offset, count);
      if log1 != log0 {
        Appended(log0, [DidConnect(Up)], wire.log);
        FreshConnection(wire.sent[|sent0|..], wire.log[|log1|..], unit, offset, count, a);
      }
    }

    /** Up to two attempts: a reset is retried once, a timeout or a desync closes the connection. */
    method Attempts(offset: nat, count: nat) returns (o: Outcome)
      requires InSync()
      modifies this`connected, this`tid, wire
      ensures InSync()
      ensures old(wire.sent) <= wire.sent && old(wire.log) <= wire.log
      ensures CallDone(wire.sent[|old(wire.sent)|..], wire.log[|old(wire.log)|..], unit, offset, count,
                       old(connected), o)
      ensures o.Words? || o.Refused? ==> connected
      ensures o.NoAnswer? || o.Broken? ==> !connected
    {
      hide AttemptDone, CallDone, Ready, InSync;
      ghost var sent0, log0, open := wire.sent, wire.log, connected;
      ghost var log: seq<Event>, asked: seq<Sent> := [], [];
      NothingTried(unit, offset, count, open);
      var attempt := 1;
      while attempt <= 2
        invariant 1 <= attempt <= 2 && InSync()
        invariant wire.sent == sent0 + asked && wire.log == log0 + log
        invariant Ready(asked, log, unit, offset, count, open, attempt, connected)
        decreases 2 - attempt
      {
        ghost var reused := connected;
        var a := TryOnce(offset, count);
        ghost var more, mine := wire.log[|log0| + |log|..], wire.sent[|sent0| + |asked|..];
        Appended(log0, log, wire.log);
        Appended(sent0, asked, wire.sent);
        AttemptOfCall(asked, log, unit, offset, count, open, attempt, reused, mine, more, a);
        match a {
          case Late =>
            Close();
            return NoAnswer;
          case Answer(outcome) =>
            if outcome.Broken? {
              Close();
            }
            return outcome;
          case Lost =>
            Close();
            if attempt == 2 {
              return Broken(ConnectionLost);
            }
        }
        log, asked := log + more, asked + mine;
        attempt := attempt + 1;
      }
      assert false;
    }

    /** Read `count` registers: words, a refusal, no answer, or a broken link. */
    method Read(offset: nat, count: nat) returns (o: Outcome)
      requires InSync()
      modifies this, wire
      ensures InSync()
      ensures calls == old(calls) + [Call(offset, count, o)]
      ensures old(wire.sent) <= wire.sent && old(wire.log) <= wire.log
      ensures Justified([Call(offset, count, o)], wire.sent[|old(wire.sent)|..], unit)
      ensures CallDone(wire.sent[|old(wire.sent)|..], wire.log[|old(wire.log)|..], unit, offset, count,
                       old(connected), o)
      ensures o.Words? || o.Refused? ==> connected
      ensures o.NoAnswer? || o.Broken? ==> !connected
    {
      o := Attempts(offset, count);
      JustifiedCall(wire.sent[|old(wire.sent)|..], unit, Call(offset, count, o), 2);
      calls := calls + [Call(offset, count, o)];
    }
  }
}
