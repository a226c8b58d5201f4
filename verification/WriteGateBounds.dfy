/**
 The bounds Home Assistant shows of a number whose range the device moves: they are taken over
 with a state write only, while the entity remembers the derived bounds its updates saw.
 */
module WriteGateBounds {
  import opened Text
  import opened WriteGate
  import opened WriteGateProofs

  /** The event makes Home Assistant take state and bounds over. */
  predicate Tells(def: Definition, s: Number, e: Event) {
    match e
    case Request(_, _) => true
    case Update(v) =>
      !Locked(s, v) && (BoundsMove(def, s, v) || Passes(s.gate, Native(def, s.restored, v.data), v.available))
  }

  /** The data the entity reads when it handles the event. */
  function DataOf(def: Definition, e: Event): Data {
    match e
    case Update(v) => v.data
    case Request(v, value) => WithValue(def, v.data, value)
  }

  /** The data behind the last write to Home Assistant, the one on joining included. */
  function ToldData(def: Definition, start: View, s0: Number, events: seq<Event>): Data {
    if events == [] then start.data
    else
      var n := |events| - 1;
      if Tells(def, Run(def, s0, events[..n]), events[n]) then DataOf(def, events[n])
      else ToldData(def, start, s0, events[..n])
  }

  lemma StepOfBounds(def: Definition, s: Number, e: Event)
    ensures var t := Next(def, s, e);
      && t.bounds == (if Tells(def, s, e) then Effective(def, DataOf(def, e)) else s.bounds)
      && (e.Request? ==> t.lastBounds == s.lastBounds)
      && (e.Update? && !Locked(s, e.view) && def.derive(e.view.data).Some? ==> t.lastBounds == def.derive(e.view.data))
      && (e.Update? && (Locked(s, e.view) || def.derive(e.view.data).None? || !Tells(def, s, e)) ==>
            t.lastBounds == s.lastBounds)
  {
  }

  /** Over any run the bounds shown are those that held for the data of the last write. */
  lemma {:induction false} BoundsAreTheLastTold(def: Definition, start: View, last: Option<real>, events: seq<Event>)
    ensures var s0 := Added(def, start, last);
      Run(def, s0, events).bounds == Effective(def, ToldData(def, start, s0, events))
  {
    if events != [] {
      var n := |events| - 1;
      BoundsAreTheLastTold(def, start, last, events[..n]);
      StepOfBounds(def, Run(def, Added(def, start, last), events[..n]), events[n]);
    }
  }

  /**
   The event told Home Assistant bounds other than the ones the entity remembers: a command sent
   while the derived bounds differ from those of the last update, or a new value on the declared range.
   */
  predicate Strays(def: Definition, s: Number, e: Event) {
    && Tells(def, s, e)
    && var remembered := s.lastBounds;
       && remembered.Some? && Effective(def, DataOf(def, e)) != remembered.value
       && (e.Update? ==> def.derive(e.view.data).None?)
  }

  ghost predicate StrayAt(def: Definition, s0: Number, events: seq<Event>, k: nat) {
    k < |events| && Strays(def, Run(def, s0, events[..k]), events[k])
  }

  ghost predicate SilentFrom(def: Definition, s0: Number, events: seq<Event>, k: nat) {
    forall j | k <= j < |events| :: !Tells(def, Run(def, s0, events[..j]), events[j])
  }

  /** The last thing Home Assistant was told strayed from the remembered bounds. */
  ghost predicate LastTellStrays(def: Definition, s0: Number, events: seq<Event>) {
    exists k: nat :: StrayAt(def, s0, events, k) && SilentFrom(def, s0, events, k + 1)
  }

  lemma LastTellStep(def: Definition, s0: Number, events: seq<Event>)
    requires events != []
    ensures var n := |events| - 1;
      var before := Run(def, s0, events[..n]);
      LastTellStrays(def, s0, events) <==>
        if Tells(def, before, events[n]) then Strays(def, before, events[n]) else LastTellStrays(def, s0, events[..n])
  {
    hide Run, Tells, Strays;
    var n := |events| - 1;
    var before := Run(def, s0, events[..n]);
    if k: nat :| StrayAt(def, s0, events, k) && SilentFrom(def, s0, events, k + 1) {
      if k < n {
        PrefixOfTells(def, s0, events, k);
        assert !Tells(def, Run(def, s0, events[..n]), events[n]);
      }
    }
    if Tells(def, before, events[n]) && Strays(def, before, events[n]) {
      assert StrayAt(def, s0, events, n) && SilentFrom(def, s0, events, n + 1);
    }
    if !Tells(def, before, events[n]) && LastTellStrays(def, s0, events[..n]) {
      var k: nat :| StrayAt(def, s0, events[..n], k) && SilentFrom(def, s0, events[..n], k + 1);
      PrefixOfTells(def, s0, events, k);
    }
    if StrayAt(def, s0, events, n) && !Tells(def, before, events[n]) {
      StrayTells(def, before, events[n]);
    }
  }

  lemma StrayTells(def: Definition, s: Number, e: Event)
    requires Strays(def, s, e)
    ensures Tells(def, s, e)
  {
  }

  lemma PrefixOfTells(def: Definition, s0: Number, events: seq<Event>, k: nat)
    requires events != [] && k < |events| - 1
    ensures var n := |events| - 1;
      && (StrayAt(def, s0, events, k) <==> StrayAt(def, s0, events[..n], k))
      && (SilentFrom(def, s0, events, k + 1) <==>
            SilentFrom(def, s0, events[..n], k + 1) && !Tells(def, Run(def, s0, events[..n]), events[n]))
  {
    hide Run, Tells, Strays;
    var n := |events| - 1;
    assert events[..n][..k] == events[..k];
    assert forall j | 0 <= j < n :: events[..n][..j] == events[..j] && events[..n][j] == events[j];
  }

  /** The bounds shown are the ones remembered. */
  predicate BoundsSettled(s: Number) {
    s.lastBounds.Some? ==> s.bounds == s.lastBounds.value
  }

  lemma StepOfSettled(def: Definition, s: Number, e: Event)
    ensures BoundsSettled(Next(def, s, e)) <==> if Tells(def, s, e) then !Strays(def, s, e) else BoundsSettled(s)
  {
  }

  lemma {:induction false} SettledUnlessStray(def: Definition, start: View, last: Option<real>, events: seq<Event>)
    ensures var s0 := Added(def, start, last);
      BoundsSettled(Run(def, s0, events)) <==> !LastTellStrays(def, s0, events)
  {
    var s0 := Added(def, start, last);
    if events != [] {
      hide Tells, Strays, LastTellStrays, BoundsSettled, Added;
      var n := |events| - 1;
      SettledUnlessStray(def, start, last, events[..n]);
      LastTellStep(def, s0, events);
      StepOfSettled(def, Run(def, s0, events[..n]), events[n]);
    }
  }

  /**
   Over any run, when an update outside the lock leaves Home Assistant showing the bounds that hold:
   with derived bounds, unless the last thing it was told strayed from the remembered ones and
   nothing told it anything since; on the declared range, if this update or the last telling before
   it found the declared range as well.
   */
  lemma BoundsShownIff(def: Definition, start: View, last: Option<real>, events: seq<Event>)
    requires events != [] && events[|events| - 1].Update?
    requires !Locked(Run(def, Added(def, start, last), events[..|events| - 1]), events[|events| - 1].view)
    ensures var s0, n := Added(def, start, last), |events| - 1;
      Run(def, s0, events).bounds == Effective(def, events[n].view.data) <==>
        (if def.derive(events[n].view.data).Some? then !LastTellStrays(def, s0, events)
         else (Tells(def, Run(def, s0, events[..n]), events[n])
               || Effective(def, ToldData(def, start, s0, events[..n])) == def.declared))
  {
    var n := |events| - 1;
    SettledUnlessStray(def, start, last, events);
    StepOfBounds(def, Run(def, Added(def, start, last), events[..n]), events[n]);
    BoundsAreTheLastTold(def, start, last, events[..n]);
    hide LastTellStrays, Run, ToldData, Added;
  }

  /**
   The device derives the bounds in every state, as the Delta 3 reserve, the Stream reserve and the
   charge schedule do.
   */
  ghost predicate AlwaysDerived(def: Definition) {
    forall data :: def.derive(data).Some?
  }

  /** The bounds do not depend on the number's own value. */
  ghost predicate IgnoresItself(def: Definition) {
    forall data, value :: def.derive(WithValue(def, data, value)) == def.derive(data)
  }

  lemma Delta3IsAlwaysDerived()
    ensures AlwaysDerived(DELTA3_RESERVE) && IgnoresItself(DELTA3_RESERVE)
  {
  }

  /** No command of the run was sent while the derived bounds differed from the remembered ones. */
  ghost predicate SteadyCommands(def: Definition, s0: Number, events: seq<Event>) {
    forall k | 0 <= k < |events| && events[k].Request? ::
      var before := Run(def, s0, events[..k]);
      before.lastBounds.Some? ==> def.derive(DataOf(def, events[k])) == before.lastBounds
  }

  /** With bounds that are always derived and steady commands, every update outside the lock shows them. */
  lemma SteadyCommandsShowTheBounds(def: Definition, start: View, last: Option<real>, events: seq<Event>)
    requires AlwaysDerived(def) && SteadyCommands(def, Added(def, start, last), events)
    requires events != [] && events[|events| - 1].Update?
    requires !Locked(Run(def, Added(def, start, last), events[..|events| - 1]), events[|events| - 1].view)
    ensures Run(def, Added(def, start, last), events).bounds == Effective(def, events[|events| - 1].view.data)
  {
    var s0 := Added(def, start, last);
    BoundsShownIff(def, start, last, events);
    forall k: nat | k < |events| ensures !StrayAt(def, s0, events, k) {
      assert def.derive(DataOf(def, events[k])).Some?;
    }
  }

  /**
   After any command in any life, the next update outside the lock can leave wrong bounds on display
   if and only if the command was sent while the derived bounds differed from the remembered ones
   and its value reads back as requested.
   */
  lemma CommandCanStrandBoundsIff(def: Definition, lives: seq<Life>, start: View, events: seq<Event>, v: View,
                                  value: real)
    requires AlwaysDerived(def) && IgnoresItself(def)
    ensures var s := Run(def, Added(def, start, Stored(def, lives)), events);
      var after := Requested(def, s, v, value);
      (exists w :: !Locked(after, w) && Updated(def, after, w).bounds != Effective(def, w.data)) <==>
        s.lastBounds.Some? && def.derive(v.data) != s.lastBounds && Clean(def, value) == value
  {
    var last := Stored(def, lives);
    var s := Run(def, Added(def, start, last), events);
    var after := Requested(def, s, v, value);
    StoredIsClean(def, lives);
    RestoredStays(def, Added(def, start, last), events);
    assert def.derive(WithValue(def, v.data, value)) == def.derive(v.data) && def.derive(v.data).Some?;
    if s.lastBounds.Some? && def.derive(v.data) != s.lastBounds && Clean(def, value) == value {
      var data := RememberedWasSeen(def, start, last, events);
      var w := View(WithValue(def, data, value), v.available, s.seen, v.now + LOCK_SECONDS);
      assert !Locked(after, w) && Updated(def, after, w).bounds != Effective(def, w.data);
    } else {
      forall w | !Locked(after, w) ensures Updated(def, after, w).bounds == Effective(def, w.data) {
        NativeIsClean(def, s.restored, w.data);
        assert def.derive(w.data).Some?;
      }
    }
  }

  /** On the Delta 3 reserve: exactly a whole percentage sent while the battery limits differ from those last seen. */
  lemma Delta3CommandCanStrandIff(lives: seq<Life>, start: View, events: seq<Event>, v: View, value: real)
    ensures var s := Run(DELTA3_RESERVE, Added(DELTA3_RESERVE, start, Stored(DELTA3_RESERVE, lives)), events);
      var after := Requested(DELTA3_RESERVE, s, v, value);
      (exists w ::
         !Locked(after, w) && Updated(DELTA3_RESERVE, after, w).bounds != Effective(DELTA3_RESERVE, w.data)) <==>
        s.lastBounds.Some? && Delta3ReserveBounds(v.data) != s.lastBounds && value == value.Floor as real
  {
    Delta3IsAlwaysDerived();
    CommandCanStrandBoundsIff(DELTA3_RESERVE, lives, start, events, v, value);
    assert Clean(DELTA3_RESERVE, value) == value <==> value == value.Floor as real;
  }

  /** Bounds the entity remembers were derived from the data of one of its updates. */
  lemma {:induction false} RememberedWasSeen(def: Definition, start: View, last: Option<real>, events: seq<Event>)
    returns (data: Data)
    requires Run(def, Added(def, start, last), events).lastBounds.Some?
    ensures def.derive(data) == Run(def, Added(def, start, last), events).lastBounds
    ensures exists k | 0 <= k < |events| :: events[k].Update? && events[k].view.data == data
  {
    var n := |events| - 1;
    var before := Run(def, Added(def, start, last), events[..n]);
    if Run(def, Added(def, start, last), events).lastBounds == before.lastBounds {
      data := RememberedWasSeen(def, start, last, events[..n]);
      var k :| 0 <= k < n && events[..n][k].Update? && events[..n][k].view.data == data;
      assert events[k].Update? && events[k].view.data == data;
    } else {
      data := events[n].view.data;
    }
  }

  // ------------------------------------------------------------- two runs that go wrong

  function Delta3Data(discharge: real, reserve: real): Data {
    map["min_discharge_soc_pct" := Num(discharge), "backup_reserve_soc_pct" := Num(reserve)]
  }

  /** The discharge limit moves inside the lock, a second command shows it, and it moves back. */
  function Delta3Run(): seq<Event> {
    [Update(View(Delta3Data(10.0, 50.0), true, 0, 1.0)),
     Request(View(Delta3Data(10.0, 50.0), true, 0, 10.0), 60.0),
     Update(View(Delta3Data(20.0, 60.0), true, 0, 11.0)),
     Request(View(Delta3Data(20.0, 60.0), true, 0, 12.0), 60.0),
     Update(View(Delta3Data(10.0, 60.0), true, 0, 20.0))]
  }

  lemma Delta3Derives(discharge: int, reserve: real)
    requires 0 < discharge <= 30
    ensures DELTA3_RESERVE.derive(Delta3Data(discharge as real, reserve)) == Some(Range((discharge + 5) as real, 100.0))
  {
    var data := Delta3Data(discharge as real, reserve);
    assert (discharge as real).Floor == discharge;
    assert AsKnownInt(data, "min_discharge_soc_pct") == Some(discharge);
    assert AsKnownInt(data, "max_charge_soc_pct") == None;
  }

  lemma RunOne(def: Definition, s: Number, events: seq<Event>, e: Event)
    ensures Run(def, s, events + [e]) == Next(def, Run(def, s, events), e)
  {
    assert (events + [e])[..|events|] == events;
  }

  /** A Delta 3 goes on offering 25 to 100 although its reserve may be set from 15 on. */
  lemma ReturnedBoundsStrand()
    ensures var start := View(Delta3Data(10.0, 50.0), true, 0, 0.0);
      var s0 := Added(DELTA3_RESERVE, start, None);
      var end := Delta3Run()[4].view;
      && !Locked(Run(DELTA3_RESERVE, s0, Delta3Run()[..4]), end)
      && Run(DELTA3_RESERVE, s0, Delta3Run()).bounds == Range(25.0, 100.0)
      && Effective(DELTA3_RESERVE, end.data) == Range(15.0, 100.0)
  {
    var def, events := DELTA3_RESERVE, Delta3Run();
    var start := View(Delta3Data(10.0, 50.0), true, 0, 0.0);
    Delta3Derives(10, 50.0);
    Delta3Derives(10, 60.0);
    Delta3Derives(20, 60.0);
    assert Clean(def, 50.0) == 50.0 && Clean(def, 60.0) == 60.0;
    assert WithValue(def, Delta3Data(10.0, 50.0), 60.0) == Delta3Data(10.0, 60.0);
    assert WithValue(def, Delta3Data(20.0, 60.0), 60.0) == Delta3Data(20.0, 60.0);
    hide Run, Delta3Data, Clean;
    var s0 := Added(def, start, None);
    RunNothing(def, s0);
    FiveSteps(def, s0, events);
    var s1 := Next(def, s0, events[0]);
    assert s1.bounds == Range(15.0, 100.0) && s1.lastBounds == Some(Range(15.0, 100.0)) && s1.lockUntil == 0.0
      && s1.seen == 0;
    var s2 := Next(def, s1, events[1]);
    assert s2.lockUntil == 15.0 && s2.seen == 0 && s2.lastBounds == s1.lastBounds;
    var s3 := Next(def, s2, events[2]);
    assert s3 == s2;
    var s4 := Next(def, s3, events[3]);
    assert s4.bounds == Range(25.0, 100.0) && s4.lastBounds == s1.lastBounds && s4.lockUntil == 17.0 && s4.seen == 0;
    assert s4.gate == Written(Some(60.0), Some(60.0), true);
  }

  lemma RunNothing(def: Definition, s: Number)
    ensures Run(def, s, []) == s
  {
  }

  lemma FiveSteps(def: Definition, s: Number, e: seq<Event>)
    requires |e| == 5
    ensures var s4 := Next(def, Next(def, Next(def, Next(def, s, e[0]), e[1]), e[2]), e[3]);
      Run(def, s, e[..4]) == s4 && Run(def, s, e) == Next(def, s4, e[4])
  {
    hide Run, Next;
    RunNothing(def, s);
    RunOne(def, s, [], e[0]);
    RunOne(def, s, [e[0]], e[1]);
    RunOne(def, s, [e[0], e[1]], e[2]);
    RunOne(def, s, [e[0], e[1], e[2]], e[3]);
    RunOne(def, s, [e[0], e[1], e[2], e[3]], e[4]);
    assert [] + [e[0]] == [e[0]];
    assert [e[0]] + [e[1]] == [e[0], e[1]];
    assert [e[0], e[1]] + [e[2]] == [e[0], e[1], e[2]];
    assert [e[0], e[1], e[2]] + [e[3]] == [e[0], e[1], e[2], e[3]] == e[..4];
    assert [e[0], e[1], e[2], e[3]] + [e[4]] == e;
  }

  function FeedData(limit: real, power: real): Data {
    map["ems_feed_power_limit_w" := Num(limit), "feed_schedule_1_power_w" := Num(power)]
  }

  /** A feed limit lowered to nothing leaves the old ceiling on display instead of the declared range. */
  lemma LapsedBoundsStrand()
    ensures var s0 := Added(FEED_SCHEDULE, View(FeedData(600.0, 300.0), true, 0, 0.0), None);
      var events := [Update(View(FeedData(600.0, 300.0), true, 0, 1.0)),
                     Update(View(FeedData(0.0, 300.0), true, 0, 2.0))];
      && !Locked(Run(FEED_SCHEDULE, s0, events[..1]), events[1].view)
      && Run(FEED_SCHEDULE, s0, events).bounds == Range(100.0, 600.0)
      && Effective(FEED_SCHEDULE, events[1].view.data) == Range(100.0, 5000.0)
  {
    var def := FEED_SCHEDULE;
    var s0 := Added(def, View(FeedData(600.0, 300.0), true, 0, 0.0), None);
    var first, second := Update(View(FeedData(600.0, 300.0), true, 0, 1.0)),
      Update(View(FeedData(0.0, 300.0), true, 0, 2.0));
    assert (600 as real).Floor == 600 && (0 as real).Floor == 0;
    assert AsKnownInt(FeedData(600.0, 300.0), "ems_feed_power_limit_w") == Some(600);
    assert AsKnownInt(FeedData(0.0, 300.0), "ems_feed_power_limit_w") == Some(0);
    assert Clean(def, 300.0) == 300.0;
    RunNothing(def, s0);
    RunOne(def, s0, [], first);
    RunOne(def, s0, [first], second);
    assert [] + [first] == [first] && [first] + [second] == [first, second] && [first, second][..1] == [first];
  }
}
