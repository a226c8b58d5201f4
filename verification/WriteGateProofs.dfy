/**
 When the state Home Assistant shows can be trusted, over whole runs of updates and commands
 and over the restarts between them.
 */
module WriteGateProofs {
  import opened Text
  import opened WriteGate

  // ------------------------------------------------------------------ runs and lives

  datatype Event = Update(view: View) | Request(view: View, value: real)

  function Next(def: Definition, s: Number, e: Event): Number {
    match e
    case Update(v) => Updated(def, s, v)
    case Request(v, value) => Requested(def, s, v, value)
  }

  function Run(def: Definition, s: Number, events: seq<Event>): Number {
    if events == [] then s else Next(def, Run(def, s, events[..|events| - 1]), events[|events| - 1])
  }

  /** One life of a number, from joining Home Assistant to what it read when it left. */
  datatype Life = Life(start: View, events: seq<Event>, end: Data)

  /** What the next life finds stored: the value the number read at the end of the one before. */
  function Stored(def: Definition, lives: seq<Life>): Option<real> {
    if lives == [] then None
    else
      var life := lives[|lives| - 1];
      var s := Added(def, life.start, Stored(def, lives[..|lives| - 1]));
      Native(def, Run(def, s, life.events).restored, life.end)
  }

  lemma {:induction false} RestoredStays(def: Definition, s: Number, events: seq<Event>)
    ensures Run(def, s, events).restored == s.restored
  {
    if events != [] {
      RestoredStays(def, s, events[..|events| - 1]);
    }
  }

  /** A value that reads back as itself. */
  predicate IsClean(def: Definition, value: Option<real>) {
    value.Some? ==> Clean(def, value.value) == value.value
  }

  lemma CleanIsStable(def: Definition, x: real)
    ensures Clean(def, Clean(def, x)) == Clean(def, x)
  {
    var n := RoundHalfEven(x);
    assert (n as real).Floor == n;
  }

  lemma NativeIsClean(def: Definition, restored: Option<real>, data: Data)
    requires IsClean(def, restored)
    ensures IsClean(def, Native(def, restored, data))
  {
    if def.key in data {
      match data[def.key]
      case Num(x) => CleanIsStable(def, x);
      case Flag(on) => CleanIsStable(def, if on then 1.0 else 0.0);
      case _ =>
    }
  }

  /** Whatever the lives before were, what is restored is a value the number can show. */
  lemma {:induction false} StoredIsClean(def: Definition, lives: seq<Life>)
    ensures IsClean(def, Stored(def, lives))
    decreases |lives|
  {
    if lives != [] {
      var life := lives[|lives| - 1];
      var s := Added(def, life.start, Stored(def, lives[..|lives| - 1]));
      StoredIsClean(def, lives[..|lives| - 1]);
      RestoredStays(def, s, life.events);
      NativeIsClean(def, s.restored, life.end);
    }
  }

  // ------------------------------------------------------------------ the value

  /** What the number reads now, as Home Assistant should show it. */
  function Truth(def: Definition, s: Number, v: View): Shown<Option<real>> {
    Display(Native(def, s.restored, v.data), v.available)
  }

  /** Nothing Home Assistant shows now can be mistaken for a later reading. */
  predicate Settled(def: Definition, s: Number) {
    Agrees(s.gate) || !IsClean(def, s.gate.lastValue)
  }

  /** From a settled gate, an update handled outside the lock shows the current reading, and settles again. */
  lemma UpdateShowsTheTruth(def: Definition, s: Number, v: View)
    requires Settled(def, s) && IsClean(def, s.restored)
    ensures Settled(def, Updated(def, s, v))
    ensures !Locked(s, v) ==> Updated(def, s, v).gate.shown == Truth(def, s, v)
  {
    NativeIsClean(def, s.restored, v.data);
  }

  /** Every command settles the gate: a value that would not read back as itself is never mistaken for a reading. */
  lemma RequestSettles(def: Definition, s: Number, v: View, value: real)
    ensures Settled(def, Requested(def, s, v, value))
  {
  }

  /** From a settled gate on, any run leaves it settled, and every update outside the lock shows the truth. */
  lemma {:induction false} SettledRun(def: Definition, s: Number, events: seq<Event>)
    requires Settled(def, s) && IsClean(def, s.restored)
    ensures Settled(def, Run(def, s, events))
    ensures events != [] && events[|events| - 1].Update? ==>
      var before, v := Run(def, s, events[..|events| - 1]), events[|events| - 1].view;
      !Locked(before, v) ==> Run(def, s, events).gate.shown == Truth(def, s, v)
  {
    hide Settled, Updated, Requested;
    if events != [] {
      var before := Run(def, s, events[..|events| - 1]);
      SettledRun(def, s, events[..|events| - 1]);
      RestoredStays(def, s, events[..|events| - 1]);
      match events[|events| - 1]
      case Update(v) => UpdateShowsTheTruth(def, before, v);
      case Request(v, value) => RequestSettles(def, before, v, value);
    }
  }

  /** The number joined available and with a live value, which its gate does not remember. */
  predicate JoinedLive(def: Definition, start: View) {
    start.available && Native(def, None, start.data).Some?
  }

  /** An update that reads nothing, while the number is available and on its declared range. */
  predicate ReadsNothing(def: Definition, e: Event) {
    e.Update? && e.view.available && Native(def, None, e.view.data).None? && def.derive(e.view.data).None?
  }

  ghost predicate AllReadNothing(def: Definition, events: seq<Event>) {
    forall i | 0 <= i < |events| :: ReadsNothing(def, events[i])
  }

  /**
   After a live start, either all updates read nothing and Home Assistant was told nothing, or the
   gate is settled.
   */
  lemma {:induction false} SinceTheStart(def: Definition, start: View, last: Option<real>, events: seq<Event>)
    requires JoinedLive(def, start) && IsClean(def, last)
    ensures var s0 := Added(def, start, last);
      var s := Run(def, s0, events);
      if AllReadNothing(def, events) then s == s0.(seen := s.seen) else Settled(def, s)
  {
    var s0 := Added(def, start, last);
    if events != [] {
      var n := |events| - 1;
      SinceTheStart(def, start, last, events[..n]);
      RestoredStays(def, s0, events[..n]);
      AllReadNothingStep(def, events);
      FirstEvent(def, start, last, Run(def, s0, events[..n]), events[n]);
      hide Updated, Requested, Added, Settled, ReadsNothing, AllReadNothing;
      var before := Run(def, s0, events[..n]);
      if !AllReadNothing(def, events[..n]) {
        match events[n]
        case Update(v) => UpdateShowsTheTruth(def, before, v);
        case Request(v, value) => RequestSettles(def, before, v, value);
      }
    }
  }

  lemma AllReadNothingStep(def: Definition, events: seq<Event>)
    requires events != []
    ensures AllReadNothing(def, events) <==>
      AllReadNothing(def, events[..|events| - 1]) && ReadsNothing(def, events[|events| - 1])
  {
  }

  /** One event on a number that told Home Assistant nothing since it joined. */
  lemma FirstEvent(def: Definition, start: View, last: Option<real>, s: Number, e: Event)
    requires JoinedLive(def, start) && IsClean(def, last)
    ensures var s0 := Added(def, start, last);
      && IsClean(def, s0.restored)
      && (s == s0.(seen := s.seen) ==>
            if ReadsNothing(def, e) then Next(def, s, e) == s0.(seen := e.view.rollback)
              else Settled(def, Next(def, s, e)))
  {
  }

  /**
   In every life of a number, over any run of updates and commands, an update outside the lock
   leaves Home Assistant showing the current value and availability. The one exception: the number
   joined available with a live value, and since then nothing but updates without a value came.
   */
  lemma EveryUpdateShowsTheTruth(def: Definition, lives: seq<Life>, start: View, events: seq<Event>)
    requires events != [] && events[|events| - 1].Update?
    requires !Locked(Run(def, Added(def, start, Stored(def, lives)), events[..|events| - 1]), events[|events| - 1].view)
    ensures var s0, v := Added(def, start, Stored(def, lives)), events[|events| - 1].view;
      Run(def, s0, events).gate.shown == Truth(def, s0, v) <==> !(JoinedLive(def, start) && AllReadNothing(def, events))
  {
    var last := Stored(def, lives);
    var s0 := Added(def, start, last);
    var n := |events| - 1;
    StoredIsClean(def, lives);
    AllReadNothingStep(def, events);
    if JoinedLive(def, start) {
      SinceTheStart(def, start, last, events[..n]);
      RestoredStays(def, s0, events[..n]);
      FirstEvent(def, start, last, Run(def, s0, events[..n]), events[n]);
      if AllReadNothing(def, events[..n]) {
        LiveStart(def, start, last, Run(def, s0, events[..n]), events[n].view);
      } else {
        UpdateShowsTheTruth(def, Run(def, s0, events[..n]), events[n].view);
      }
    } else {
      SettledRun(def, s0, events);
    }
  }

  /** The first update since a live start shows the truth unless it reads nothing. */
  lemma LiveStart(def: Definition, start: View, last: Option<real>, s: Number, v: View)
    requires JoinedLive(def, start) && s == Added(def, start, last).(seen := s.seen)
    ensures Updated(def, s, v).gate.shown == Truth(def, s, v) <==> !ReadsNothing(def, Update(v))
  {
  }

  /** A schedule power live at the start, cleared by the next update, stays on display. */
  lemma ClearedNumberStrands()
    ensures var start := Added(FEED_SCHEDULE, View(map[FEED_SCHEDULE.key := Num(300.0)], true, 0, 0.0), None);
      var clear := View(map[FEED_SCHEDULE.key := Cleared], true, 0, 1.0);
      && !Locked(start, clear) && Truth(FEED_SCHEDULE, start, clear) == Shows(None)
      && Updated(FEED_SCHEDULE, start, clear).gate.shown == Shows(Some(300.0))
  {
    assert Clean(FEED_SCHEDULE, 300.0) == 300.0;
  }

  /** A number joins settled unless it is available with a live value: until then the gate remembers none. */
  lemma AddedIsSettledIff(def: Definition, v: View, last: Option<real>)
    requires IsClean(def, last)
    ensures Settled(def, Added(def, v, last)) <==> !JoinedLive(def, v)
  {
  }

  /**
   Inside the lock the number keeps the requested value, whatever the device reports, until a
   rollback shows up; the update that sees one ends the lock.
   */
  lemma {:induction false} LockKeepsTheRequest(def: Definition, s: Number, v: View, value: real, events: seq<Event>)
    requires forall i | 0 <= i < |events| ::
      events[i].Update? && events[i].view.now < v.now + 5.0 && events[i].view.rollback == s.seen
    ensures Run(def, Requested(def, s, v, value), events) == Requested(def, s, v, value)
    ensures forall w: View ::
      Locked(Requested(def, s, v, value), w) <==> w.rollback == s.seen && w.now < v.now + 5.0
    ensures Requested(def, s, v, value).gate.shown == Display(Some(Clean(def, value)), v.available)
  {
    if events != [] {
      LockKeepsTheRequest(def, s, v, value, events[..|events| - 1]);
    }
  }

  lemma RollbackEndsTheLock(def: Definition, s: Number, v: View, value: real, w: View)
    requires IsClean(def, s.restored) && w.rollback != s.seen
    ensures var after := Updated(def, Requested(def, s, v, value), w);
      after.gate.shown == Truth(def, s, w) && after.lockUntil == 0.0 && after.seen == w.rollback
  {
    RequestSettles(def, s, v, value);
    UpdateShowsTheTruth(def, Requested(def, s, v, value), w);
  }

  // ------------------------------------------------------------------- switches

  function SwitchTruth(def: SwitchDef, s: Switch, v: View): Shown<Option<bool>> {
    Display(IsOn(def, AfterRollback(def, s, v), v), v.available)
  }

  datatype SwitchEvent = SwitchUpdate(view: View) | SwitchRequest(view: View, on: bool)

  function SwitchNext(def: SwitchDef, s: Switch, e: SwitchEvent): Switch {
    match e
    case SwitchUpdate(v) => SwitchUpdated(def, s, v)
    case SwitchRequest(v, on) => SwitchRequested(s, v, on)
  }

  function SwitchRun(def: SwitchDef, s: Switch, events: seq<SwitchEvent>): Switch {
    if events == [] then s else SwitchNext(def, SwitchRun(def, s, events[..|events| - 1]), events[|events| - 1])
  }

  predicate SwitchJoinedLive(def: SwitchDef, start: View) {
    start.available && Reported(def, None, start.data).Some?
  }

  predicate SwitchReadsNothing(def: SwitchDef, e: SwitchEvent) {
    e.SwitchUpdate? && e.view.available && Reported(def, None, e.view.data).None?
  }

  ghost predicate AllSwitchReadNothing(def: SwitchDef, events: seq<SwitchEvent>) {
    forall i | 0 <= i < |events| :: SwitchReadsNothing(def, events[i])
  }

  lemma AllSwitchReadNothingStep(def: SwitchDef, events: seq<SwitchEvent>)
    requires events != []
    ensures AllSwitchReadNothing(def, events) <==>
      AllSwitchReadNothing(def, events[..|events| - 1]) && SwitchReadsNothing(def, events[|events| - 1])
  {
  }

  /** One event on a switch: as at the start, or Home Assistant shows what the gate remembers. */
  lemma SwitchStep(def: SwitchDef, start: View, last: Option<bool>, s: Switch, e: SwitchEvent)
    ensures var s0 := SwitchAdded(def, start, last);
      && (Agrees(s.gate) ==> Agrees(SwitchNext(def, s, e).gate))
      && (Agrees(s0.gate) <==> !SwitchJoinedLive(def, start))
      && (s == s0.(seen := s.seen) && SwitchJoinedLive(def, start) ==>
            if SwitchReadsNothing(def, e) then SwitchNext(def, s, e) == s0.(seen := e.view.rollback)
            else Agrees(SwitchNext(def, s, e).gate))
      && (e.SwitchUpdate? && Agrees(s.gate) ==> SwitchNext(def, s, e).gate.shown == SwitchTruth(def, s, e.view))
      && (e.SwitchUpdate? && s == s0.(seen := s.seen) && SwitchJoinedLive(def, start) ==>
            (SwitchNext(def, s, e).gate.shown == SwitchTruth(def, s, e.view) <==> !SwitchReadsNothing(def, e)))
  {
  }

  lemma {:induction false} SwitchSinceTheStart(def: SwitchDef, start: View, last: Option<bool>,
                                               events: seq<SwitchEvent>)
    ensures var s0 := SwitchAdded(def, start, last);
      var s := SwitchRun(def, s0, events);
      if SwitchJoinedLive(def, start) && AllSwitchReadNothing(def, events) then s == s0.(seen := s.seen)
        else Agrees(s.gate)
  {
    hide SwitchNext, SwitchAdded, SwitchJoinedLive, SwitchReadsNothing, Agrees;
    var s0 := SwitchAdded(def, start, last);
    if events != [] {
      AllSwitchReadNothingStep(def, events);
      hide AllSwitchReadNothing;
      SwitchSinceTheStart(def, start, last, events[..|events| - 1]);
      SwitchStep(def, start, last, SwitchRun(def, s0, events[..|events| - 1]), events[|events| - 1]);
    } else {
      SwitchStep(def, start, last, s0, SwitchUpdate(start));
    }
  }

  /**
   Over any run of updates and commands every update leaves Home Assistant showing the switch's
   own state and availability, inside the lock and outside. The one exception: the switch joined
   available with a live state, and since then nothing but updates without one came.
   */
  lemma EveryUpdateShowsTheSwitch(def: SwitchDef, start: View, last: Option<bool>, events: seq<SwitchEvent>)
    requires events != [] && events[|events| - 1].SwitchUpdate?
    ensures var s0 := SwitchAdded(def, start, last);
      var before, v := SwitchRun(def, s0, events[..|events| - 1]), events[|events| - 1].view;
      SwitchRun(def, s0, events).gate.shown == SwitchTruth(def, before, v) <==>
        !(SwitchJoinedLive(def, start) && AllSwitchReadNothing(def, events))
  {
    hide SwitchNext, SwitchAdded, SwitchJoinedLive, SwitchReadsNothing, Agrees, SwitchTruth;
    AllSwitchReadNothingStep(def, events);
    hide AllSwitchReadNothing;
    SwitchSinceTheStart(def, start, last, events[..|events| - 1]);
    SwitchStep(def, start, last, SwitchRun(def, SwitchAdded(def, start, last), events[..|events| - 1]),
               events[|events| - 1]);
  }

  /** A live on or off at the start, cleared by the next update, stays on display. */
  lemma ClearedSwitchStrands(def: SwitchDef, on: bool)
    ensures var start := SwitchAdded(def, View(map[def.key := Flag(on)], true, 0, 0.0), None);
      var clear := View(map[def.key := Cleared], true, 0, 1.0);
      SwitchTruth(def, start, clear) == Shows(None) && SwitchUpdated(def, start, clear).gate.shown == Shows(Some(on))
  {
  }

  function SwitchViews(def: SwitchDef, s: Switch, views: seq<View>): Switch {
    if views == [] then s else SwitchUpdated(def, SwitchViews(def, s, views[..|views| - 1]), views[|views| - 1])
  }

  /**
   Inside the lock the switch shows the request, with the availability of the moment: any update,
   also after a rollback unless the device is an Ocean 2, where the device's own value returns.
   */
  lemma {:induction false} SwitchKeepsTheRequest(def: SwitchDef, s: Switch, v: View, on: bool, views: seq<View>)
    requires views != [] && forall i | 0 <= i < |views| :: views[i].now < v.now + 5.0
    requires def.ocean2 ==> forall i | 0 <= i < |views| :: views[i].rollback == s.seen
    ensures var after := SwitchViews(def, SwitchRequested(s, v, on), views);
      && after.requested == on && after.lockUntil == v.now + 5.0 && (def.ocean2 ==> after.seen == s.seen)
      && Agrees(after.gate) && after.gate.shown == Display(Some(on), views[|views| - 1].available)
  {
    if |views| > 1 {
      SwitchKeepsTheRequest(def, s, v, on, views[..|views| - 1]);
    } else {
      assert SwitchViews(def, SwitchRequested(s, v, on), views[..0]) == SwitchRequested(s, v, on);
    }
  }

  lemma Ocean2RollbackShowsTheDevice(def: SwitchDef, s: Switch, v: View, on: bool, w: View)
    requires def.ocean2 && w.rollback != s.seen
    ensures SwitchUpdated(def, SwitchRequested(s, v, on), w).gate.shown ==
      Display(Reported(def, s.restored, w.data), w.available)
  {
  }
}
