/**
 The timed capture window of an entry over whole runs of saves, checks at setup, expiry
 timers, new credentials and rebuilds, on a clock that never goes back.
 */
module CaptureWindow {
  import opened ConfigEntries
  import opened Text

  /** What can touch an entry, at a time in seconds. */
  datatype Event =
    | Save(at: int, mode: Mode, devices: seq<Device>, signIn: Option<SignIn>, wanted: Option<bool>,
           vehicle: Option<bool>)
    | Check(at: int)
    | Timer(at: int)
    | Credentials(at: int, keys: SignIn, account: SignIn)
    | ToLocal(at: int, title: string, device: Device, address: Address)
    | ToCloud(at: int, title: string, devices: seq<Device>, newSignIn: SignIn)

  /** The timer is set for the stored deadline, and every change of the entry sets it anew. */
  function Step(e: Entry, ev: Event): Entry {
    match ev
    case Save(at, mode, devices, signIn, wanted, vehicle) =>
      if Answered(e, mode, signIn) then SavedEntry(e, mode, devices, signIn, wanted, vehicle, at) else e
    case Check(at) => if e.capture == Some(true) && !WindowOpen(e, at) then CaptureOff(e) else e
    case Timer(at) => if e.captureUntil.Some? && e.captureUntil.value <= at then CaptureOff(e) else e
    case Credentials(_, keys, account) =>
      if keys.Keys? && account.Account? then WithCredentials(e, keys, account) else e
    case ToLocal(_, title, device, address) => LocalEntry(title, device, address)
    case ToCloud(_, title, devices, signIn) => CloudEntry(title, devices, signIn)
  }

  function Run(e: Entry, events: seq<Event>): Entry {
    if events == [] then e else Step(Run(e, events[..|events| - 1]), events[|events| - 1])
  }

  ghost predicate Sorted(events: seq<Event>) {
    forall i, j | 0 <= i < j < |events| :: events[i].at <= events[j].at
  }

  /** The event asks for the capture while no window is open. */
  predicate Opens(e: Entry, ev: Event) {
    ev.Save? && ev.wanted == Some(true) && Answered(e, ev.mode, ev.signIn) && !WindowOpen(e, ev.at)
  }

  /** The owner switches the capture off, or the entry is written from scratch. */
  predicate Ends(ev: Event) {
    ev.ToLocal? || ev.ToCloud? || (ev.Save? && ev.wanted == Some(false))
  }

  lemma CaptureOfSaved(e: Entry, mode: Mode, devices: seq<Device>, signIn: Option<SignIn>, wanted: Option<bool>,
                       vehicle: Option<bool>, now: int)
    requires Answered(e, mode, signIn)
    ensures var f, g := SavedEntry(e, mode, devices, signIn, wanted, vehicle, now), ApplyCapture(e, wanted, now);
      f.capture == g.capture && f.captureUntil == g.captureUntil
  {
  }

  /** One step opens a full window, keeps the deadline, or leaves no window at all. */
  lemma StepOfWindow(e: Entry, ev: Event)
    ensures var f := Step(e, ev);
      if Opens(e, ev) then f.capture == Some(true) && f.captureUntil == Some(ev.at + 86_400)
      else f.capture != Some(true) || (e.capture == Some(true) && f.captureUntil == e.captureUntil)
    ensures !Ends(ev) && WindowOpen(e, ev.at) ==>
      Step(e, ev).capture == Some(true) && Step(e, ev).captureUntil == e.captureUntil
  {
    if ev.Save? && Answered(e, ev.mode, ev.signIn) {
      CaptureOfSaved(e, ev.mode, ev.devices, ev.signIn, ev.wanted, ev.vehicle, ev.at);
      hide SavedEntry, Answered;
    }
  }

  /** The window after the run was opened by event `k` and its deadline has stood ever since. */
  ghost predicate OpenedBy(e: Entry, events: seq<Event>, k: nat) {
    && k < |events|
    && Opens(Run(e, events[..k]), events[k])
    && forall j | k < j <= |events| ::
         Run(e, events[..j]).capture == Some(true)
           && Run(e, events[..j]).captureUntil == Some(events[k].at + 86_400)
  }

  /** An event that leaves the window and its deadline alone leaves the opener as it was. */
  lemma OpenerStands(e: Entry, events: seq<Event>, k: nat)
    requires events != [] && OpenedBy(e, events[..|events| - 1], k)
    requires Run(e, events).capture == Some(true)
      && Run(e, events).captureUntil == Run(e, events[..|events| - 1]).captureUntil
    ensures OpenedBy(e, events, k)
  {
    hide Run, Opens;
    var n := |events| - 1;
    assert events[..n][..k] == events[..k] && events[..n][..n] == events[..n] && events[..|events|] == events;
    forall j | k < j <= |events|
      ensures Run(e, events[..j]).capture == Some(true)
        && Run(e, events[..j]).captureUntil == Some(events[k].at + 86_400)
    {
      assert j <= n ==> events[..n][..j] == events[..j];
    }
  }

  lemma LatestOpens(e: Entry, events: seq<Event>)
    requires events != []
    requires var n := |events| - 1;
      Opens(Run(e, events[..n]), events[n]) && Run(e, events).capture == Some(true)
        && Run(e, events).captureUntil == Some(events[n].at + 86_400)
    ensures OpenedBy(e, events, |events| - 1)
  {
    hide Run, Opens;
    assert events[..|events|] == events;
  }

  lemma RunStep(e: Entry, events: seq<Event>)
    requires events != []
    ensures Run(e, events) == Step(Run(e, events[..|events| - 1]), events[|events| - 1])
  {
  }

  /**
   Over any run that starts with the capture off, a window that is open was opened by one
   save, at most 24 hours ago, and nothing since has moved its deadline.
   */
  lemma {:induction false} WindowIsBounded(e: Entry, events: seq<Event>, now: int)
    requires e.capture != Some(true) && Sorted(events)
    requires events != [] ==> events[|events| - 1].at <= now
    ensures WindowOpen(Run(e, events), now) ==>
      exists k: nat :: OpenedBy(e, events, k) && events[k].at <= now < events[k].at + 86_400
  {
    if events != [] {
      hide Step, Opens, Run, OpenedBy;
      var n := |events| - 1;
      var before := Run(e, events[..n]);
      RunStep(e, events);
      StepOfWindow(before, events[n]);
      WindowIsBounded(e, events[..n], now);
      if WindowOpen(Run(e, events), now) {
        if Opens(before, events[n]) {
          LatestOpens(e, events);
        } else {
          var k: nat :| OpenedBy(e, events[..n], k) && events[k].at <= now < events[k].at + 86_400;
          OpenerStands(e, events, k);
        }
      }
    }
  }

  /**
   While a window is open nothing but its end moves or shortens it: after any events before
   the deadline it is open exactly until that same deadline.
   */
  lemma {:induction false} DeadlineStands(e: Entry, events: seq<Event>, now: int)
    requires e.capture == Some(true) && e.captureUntil.Some?
    requires forall i | 0 <= i < |events| :: events[i].at < e.captureUntil.value && !Ends(events[i])
    ensures Run(e, events).capture == Some(true) && Run(e, events).captureUntil == e.captureUntil
    ensures WindowOpen(Run(e, events), now) <==> now < e.captureUntil.value
  {
    hide Step, Ends;
    if events != [] {
      var n := |events| - 1;
      DeadlineStands(e, events[..n], events[n].at);
      StepOfWindow(Run(e, events[..n]), events[n]);
    }
  }
}
