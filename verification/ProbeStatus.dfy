/** The probe's connection history: what a reader of the diagnostics is told about an empty capture. */
module ProbeStatus {
  import opened Text

  datatype Status = Connected | Disconnected | ConnectFailed | Other

  datatype Event = Event(status: Status, rc: int, message: string, at: int)

  /** What the probe has recorded; an absent field was never written. */
  datatype History = History(connects: nat, disconnects: nat, refusals: nat,
                             lastRc: Option<int>, lastReason: string,
                             lastRefusalRc: Option<int>, lastRefusalReason: string,
                             lastConnectAt: Option<int>, lastDisconnectAt: Option<int>)

  const NoHistory := History(0, 0, 0, None, "", None, "", None, None)

  function Record(h: History, e: Event): History {
    match e.status
    case Connected =>
      h.(connects := h.connects + 1, lastConnectAt := Some(e.at), lastRc := Some(0), lastReason := "connected")
    case Disconnected =>
      h.(disconnects := h.disconnects + 1, lastDisconnectAt := Some(e.at), lastRc := Some(e.rc),
         lastReason := e.message)
    case ConnectFailed =>
      h.(refusals := h.refusals + 1, lastRefusalRc := Some(e.rc), lastRefusalReason := e.message,
         lastRc := Some(e.rc), lastReason := e.message)
    case Other =>
      h.(lastRc := Some(e.rc), lastReason := e.message)
  }

  function RecordAll(events: seq<Event>): History {
    if events == [] then NoHistory
    else Record(RecordAll(events[..|events| - 1]), events[|events| - 1])
  }

  /** The recording fields as the callback updates them, one event at a time. */
  class StatusRecorder {
    var connects: nat
    var disconnects: nat
    var refusals: nat
    var lastRc: Option<int>
    var lastReason: string
    var lastRefusalRc: Option<int>
    var lastRefusalReason: string
    var lastConnectAt: Option<int>
    var lastDisconnectAt: Option<int>

    function Recorded(): History
      reads this
    {
      History(connects, disconnects, refusals, lastRc, lastReason, lastRefusalRc, lastRefusalReason,
              lastConnectAt, lastDisconnectAt)
    }

    constructor ()
      ensures Recorded() == RecordAll([])
    {
      connects, disconnects, refusals := 0, 0, 0;
      lastRc, lastReason, lastRefusalRc, lastRefusalReason := None, "", None, "";
      lastConnectAt, lastDisconnectAt := None, None;
    }

    method OnStatus(e: Event)
      modifies this
      ensures Recorded() == Record(old(Recorded()), e)
    {
      if e.status == Connected {
        connects := connects + 1;
        lastConnectAt := Some(e.at);
        lastRc, lastReason := Some(0), "connected";
      } else {
        if e.status == Disconnected {
          disconnects := disconnects + 1;
          lastDisconnectAt := Some(e.at);
        } else if e.status == ConnectFailed {
          refusals := refusals + 1;
          lastRefusalRc, lastRefusalReason := Some(e.rc), e.message;
        }
        lastRc, lastReason := Some(e.rc), e.message;
      }
    }
  }

  datatype Verdict =
    | Listening
    | LoginRefused(rc: int, reason: string)
    | ClosedBeforeAnswer(rc: int)
    | NoReply
    | WasConnected

  function VerdictOf(h: History, connected: bool): Verdict {
    if connected then Listening
    else if h.connects == 0 then
      if h.refusals > 0 && h.lastRefusalRc.Some? then LoginRefused(h.lastRefusalRc.value, h.lastRefusalReason)
      else if h.lastRc.Some? && h.lastRc.value != 0 then ClosedBeforeAnswer(h.lastRc.value)
      else NoReply
    else WasConnected
  }

  // ------------------------------------------------------------------ over any run

  function CountOf(events: seq<Event>, status: Status): nat {
    if events == [] then 0
    else CountOf(events[..|events| - 1], status) + if events[|events| - 1].status == status then 1 else 0
  }

  lemma {:induction false} CountersCount(events: seq<Event>)
    ensures var h := RecordAll(events);
      && h.connects == CountOf(events, Connected)
      && h.disconnects == CountOf(events, Disconnected)
      && h.refusals == CountOf(events, ConnectFailed)
    decreases |events|
  {
    if events != [] {
      CountersCount(events[..|events| - 1]);
    }
  }

  /** The event is in the run and no later one has its status. */
  predicate IsLast(events: seq<Event>, i: nat, status: Status) {
    i < |events| && events[i].status == status && forall j | i < j < |events| :: events[j].status != status
  }

  lemma {:induction false} LastRefusalKept(events: seq<Event>, i: nat)
    requires IsLast(events, i, ConnectFailed)
    ensures var h := RecordAll(events);
      h.refusals > 0 && h.lastRefusalRc == Some(events[i].rc) && h.lastRefusalReason == events[i].message
    decreases |events|
  {
    var n := |events| - 1;
    if i < n {
      LastRefusalKept(events[..n], i);
    }
  }

  lemma {:induction false} CountIsZero(events: seq<Event>, status: Status)
    ensures CountOf(events, status) == 0 <==> forall i | 0 <= i < |events| :: events[i].status != status
    decreases |events|
  {
    if events != [] {
      var n := |events| - 1;
      CountIsZero(events[..n], status);
      assert forall i | 0 <= i < n :: events[..n][i] == events[i];
    }
  }

  lemma {:induction false} LastExists(events: seq<Event>, status: Status) returns (i: nat)
    requires CountOf(events, status) > 0
    ensures IsLast(events, i, status)
    decreases |events|
  {
    var n := |events| - 1;
    if events[n].status == status {
      i := n;
    } else {
      i := LastExists(events[..n], status);
      assert forall j | i < j < n :: events[j] == events[..n][j];
    }
  }

  /**
   A session that never came up is reported as a refused login exactly when some login
   was refused, with the code and words of the last refusal, however many dropped links
   came after it.
   */
  lemma RefusalExplainsEmptyCapture(events: seq<Event>, rc: int, reason: string)
    ensures VerdictOf(RecordAll(events), false) == LoginRefused(rc, reason) <==>
      && (forall i | 0 <= i < |events| :: events[i].status != Connected)
      && exists i: nat :: IsLast(events, i, ConnectFailed) && events[i].rc == rc && events[i].message == reason
  {
    CountersCount(events);
    CountIsZero(events, Connected);
    CountIsZero(events, ConnectFailed);
    hide RecordAll, CountOf;
    if CountOf(events, ConnectFailed) > 0 {
      var last := LastExists(events, ConnectFailed);
      LastRefusalKept(events, last);
      forall i: nat | IsLast(events, i, ConnectFailed) ensures i == last {
        OneLast(events, i, last, ConnectFailed);
      }
    }
  }

  lemma OneLast(events: seq<Event>, i: nat, j: nat, status: Status)
    requires IsLast(events, i, status) && IsLast(events, j, status)
    ensures i == j
  {
  }

  /** Without a connect and without a refusal the last event tells: a close with a code, or no reply at all. */
  lemma {:induction false} LastEventExplains(events: seq<Event>)
    requires forall i | 0 <= i < |events| :: events[i].status != Connected && events[i].status != ConnectFailed
    ensures VerdictOf(RecordAll(events), false) ==
      if events != [] && events[|events| - 1].rc != 0 then ClosedBeforeAnswer(events[|events| - 1].rc) else NoReply
    ensures VerdictOf(RecordAll(events), true) == Listening
  {
    CountersCount(events);
    CountIsZero(events, Connected);
    CountIsZero(events, ConnectFailed);
  }

  /** The code and words are the last event's, a connect reading as code zero. */
  lemma LastEventRecorded(events: seq<Event>)
    requires events != []
    ensures var h, e := RecordAll(events), events[|events| - 1];
      && h.lastRc == Some(if e.status == Connected then 0 else e.rc)
      && h.lastReason == if e.status == Connected then "connected" else e.message
  {
  }

  /** The times are those of the last connect and of the last drop. */
  lemma {:induction false} LastTimesRecorded(events: seq<Event>, i: nat)
    ensures IsLast(events, i, Connected) ==> RecordAll(events).lastConnectAt == Some(events[i].at)
    ensures IsLast(events, i, Disconnected) ==> RecordAll(events).lastDisconnectAt == Some(events[i].at)
    decreases |events|
  {
    if i < |events| - 1 {
      LastTimesRecorded(events[..|events| - 1], i);
    }
  }

  /** A session once up and down again is never reported as one that failed to connect. */
  lemma ConnectedOnceIsRemembered(events: seq<Event>)
    ensures VerdictOf(RecordAll(events), false) == WasConnected <==>
      exists i | 0 <= i < |events| :: events[i].status == Connected
  {
    CountersCount(events);
    CountIsZero(events, Connected);
  }
}
