/**
 The listen-only probe's race between stop and reconnect: an event loop, a watchdog,
 any number of reconnect attempts in executor threads, and a network that drops and
 revives links, interleaved step by step.
 */
module Probe {
  import opened Text

  /** Where one reconnect attempt stands. */
  datatype Phase =
    | Queued     // handed to the executor, not started
    | Entered    // past the first stop check
    | Building   // holds the client lock, old client torn down
    | Tried      // the attempt is over, the second stop check is next
    | Undoing    // found the stop flag, about to disconnect
    | Done

  datatype StopPhase = NotStopped | Stopping | Stopped

  /**
   `live` are the sessions whose network loop runs, `client` is the one the probe
   still has a handle on, `up` is what `is_connected` answers.
   */
  datatype State = State(stop: StopPhase, client: Option<nat>, live: set<nat>, up: bool, next: nat,
                         lock: Option<nat>, attempts: seq<Phase>, connectCalls: nat)

  datatype Step =
    | Tick                          // a watchdog tick
    | Begin(i: nat)                 // first stop check, then the attempt is counted
    | SkipTry(i: nat)               // connected, backing off, or another attempt holds the lock
    | TakeLock(i: nat)              // tear the old client down
    | Build(i: nat, works: bool)    // new client, connected or not, lock released
    | Recheck(i: nat)               // second stop check
    | Undo(i: nat)                  // disconnect after a stop
    | RaiseFlag                     // stop sets its flag
    | StopDisconnect                // stop disconnects
    | DropLink                      // the network drops the session
    | Revive                        // the client library brings its own session back

  predicate FlagUp(s: State) {
    s.stop != NotStopped
  }

  /** `disconnect` under the lock: the loop of the present client ends. */
  function TearDown(s: State): State {
    s.(live := if s.client.Some? then s.live - {s.client.value} else s.live, up := false)
  }

  predicate At(s: State, i: nat, p: Phase) {
    i < |s.attempts| && s.attempts[i] == p
  }

  function Move(s: State, i: nat, p: Phase): State
    requires i < |s.attempts|
  {
    s.(attempts := s.attempts[i := p])
  }

  predicate Enabled(s: State, step: Step) {
    match step
    case Tick => true
    case Begin(i) => At(s, i, Queued)
    case SkipTry(i) => At(s, i, Entered)
    case TakeLock(i) => At(s, i, Entered) && s.lock.None?
    case Build(i, _) => At(s, i, Building)
    case Recheck(i) => At(s, i, Tried)
    case Undo(i) => At(s, i, Undoing) && s.lock.None?
    case RaiseFlag => s.stop == NotStopped
    case StopDisconnect => s.stop == Stopping && s.lock.None?
    case DropLink => s.up
    case Revive => s.client.Some? && s.client.value in s.live
  }

  function Apply(s: State, step: Step): State
    requires Enabled(s, step)
  {
    match step
    case Tick => if FlagUp(s) || s.up then s else s.(attempts := s.attempts + [Queued])
    case Begin(i) =>
      if FlagUp(s) then Move(s, i, Done) else Move(s, i, Entered).(connectCalls := s.connectCalls + 1)
    case SkipTry(i) => Move(s, i, Tried)
    case TakeLock(i) => Move(TearDown(s), i, Building).(client := None, lock := Some(i))
    case Build(i, works) =>
      var t := Move(s, i, Tried).(client := Some(s.next), next := s.next + 1, lock := None);
      if works then t.(live := t.live + {s.next}) else t
    case Recheck(i) => Move(s, i, if FlagUp(s) then Undoing else Done)
    case Undo(i) => Move(TearDown(s), i, Done)
    case RaiseFlag => s.(stop := Stopping)
    case StopDisconnect => TearDown(s).(stop := Stopped)
    case DropLink => s.(up := false)
    case Revive => s.(up := true)
  }

  /** After the first connect: any client, no attempt, nothing stopped. */
  predicate Init(s: State) {
    && s.stop == NotStopped && s.lock.None? && s.attempts == []
    && (forall x | x in s.live :: s.client == Some(x))
    && (s.client.Some? ==> s.client.value < s.next)
    && (s.up ==> s.client.Some? && s.client.value in s.live)
  }

  predicate IsRun(s: State, steps: seq<Step>)
    decreases |steps|
  {
    steps == [] || (Enabled(s, steps[0]) && IsRun(Apply(s, steps[0]), steps[1..]))
  }

  function After(s: State, steps: seq<Step>): State
    requires IsRun(s, steps)
    decreases |steps|
  {
    if steps == [] then s else After(Apply(s, steps[0]), steps[1..])
  }

  // ------------------------------------------------------------------- the safety

  /** An attempt that will still tear down what it may have built. */
  predicate WillUndo(p: Phase) {
    p == Tried || p == Undoing
  }

  ghost predicate Inv(s: State) {
    // one builder at a time, and it holds the lock with nothing running
    && (forall i | 0 <= i < |s.attempts| :: s.attempts[i] == Building <==> s.lock == Some(i))
    && (s.lock.Some? ==> s.lock.value < |s.attempts| && s.client.None?)
    // no session without an owner
    && (forall x | x in s.live :: s.client == Some(x))
    && (s.client.Some? ==> s.client.value < s.next)
    && (s.up ==> s.client.Some? && s.client.value in s.live)
    // once stopped, a running session has an attempt that will end it
    && (s.stop == Stopped && s.live != {} ==> exists i | 0 <= i < |s.attempts| :: WillUndo(s.attempts[i]))
  }

  lemma InitHolds(s: State)
    requires Init(s)
    ensures Inv(s)
  {
  }

  /** Every step keeps the invariant, whatever interleaves. */
  lemma StepKeepsInv(s: State, step: Step)
    requires Inv(s) && Enabled(s, step)
    ensures Inv(Apply(s, step))
  {
    var t := Apply(s, step);
    match step
    case Tick => assert forall i | 0 <= i < |s.attempts| :: t.attempts[i] == s.attempts[i];
    case Begin(i) => KeepsWitness(s, t, i);
    case SkipTry(i) => assert WillUndo(t.attempts[i]);
    case TakeLock(i) => assert t.live == {};
    case Build(i, _) => assert WillUndo(t.attempts[i]);
    case Recheck(i) =>
      if FlagUp(s) {
        assert WillUndo(t.attempts[i]);
      }
    case Undo(i) => assert t.live == {};
    case RaiseFlag =>
    case StopDisconnect => assert t.live == {};
    case DropLink =>
    case Revive =>
  }

  lemma KeepsWitness(s: State, t: State, i: nat)
    requires i < |s.attempts| && !WillUndo(s.attempts[i]) && |t.attempts| == |s.attempts|
    requires forall j | 0 <= j < |s.attempts| && j != i :: t.attempts[j] == s.attempts[j]
    ensures (exists j | 0 <= j < |s.attempts| :: WillUndo(s.attempts[j])) ==>
      exists j | 0 <= j < |t.attempts| :: WillUndo(t.attempts[j])
  {
    if j :| 0 <= j < |s.attempts| && WillUndo(s.attempts[j]) {
      assert WillUndo(t.attempts[j]);
    }
  }

  lemma {:induction false} RunKeepsInv(s: State, steps: seq<Step>)
    requires Inv(s) && IsRun(s, steps)
    ensures Inv(After(s, steps))
    decreases |steps|
  {
    if steps != [] {
      StepKeepsInv(s, steps[0]);
      RunKeepsInv(Apply(s, steps[0]), steps[1..]);
    }
  }

  /** The stop and every attempt are over. */
  predicate Quiet(s: State) {
    s.stop == Stopped && forall i | 0 <= i < |s.attempts| :: s.attempts[i] == Done
  }

  /** No session survives a stop, over any run with any number of overlapping attempts. */
  lemma NoSessionSurvives(s: State, steps: seq<Step>)
    requires Init(s) && IsRun(s, steps) && Quiet(After(s, steps))
    ensures After(s, steps).live == {} && !After(s, steps).up
  {
    InitHolds(s);
    RunKeepsInv(s, steps);
  }

  /** Nothing that happens later, no tick and no network event, brings one back. */
  lemma {:induction false} QuietStaysQuiet(s: State, steps: seq<Step>)
    requires Inv(s) && Quiet(s) && IsRun(s, steps)
    ensures After(s, steps) == s
    decreases |steps|
  {
    if steps != [] {
      assert s.live == {};
      QuietStaysQuiet(s, steps[1..]);
    }
  }

  // --------------------------------------------------------------- the termination

  predicate WorkStep(step: Step) {
    !step.Tick? && !step.DropLink? && !step.Revive? && !step.RaiseFlag?
  }

  function PhaseWork(p: Phase): nat {
    match p
    case Queued => 5
    case Entered => 4
    case Building => 3
    case Tried => 2
    case Undoing => 1
    case Done => 0
  }

  function AttemptWork(attempts: seq<Phase>): nat {
    if attempts == [] then 0 else PhaseWork(attempts[0]) + AttemptWork(attempts[1..])
  }

  /** Steps still to do once the flag is up. */
  function Work(s: State): nat {
    AttemptWork(s.attempts) + if s.stop == Stopping then 1 else 0
  }

  lemma {:induction false} WorkOfMove(attempts: seq<Phase>, i: nat, p: Phase)
    requires i < |attempts|
    ensures AttemptWork(attempts[i := p]) == AttemptWork(attempts) - PhaseWork(attempts[i]) + PhaseWork(p)
    decreases |attempts|
  {
    var moved := attempts[i := p];
    if i == 0 {
      assert moved[1..] == attempts[1..];
    } else {
      assert moved[1..] == attempts[1..][i - 1 := p];
      WorkOfMove(attempts[1..], i - 1, p);
    }
  }

  /** After the flag, every step of the stop or an attempt uses work up and nothing adds any. */
  lemma StepUsesWork(s: State, step: Step)
    requires FlagUp(s) && Enabled(s, step)
    ensures FlagUp(Apply(s, step))
    ensures Work(Apply(s, step)) + (if WorkStep(step) then 1 else 0) <= Work(s)
  {
    match step
    case Begin(i) => WorkOfMove(s.attempts, i, Done);
    case SkipTry(i) => WorkOfMove(s.attempts, i, Tried);
    case TakeLock(i) => WorkOfMove(s.attempts, i, Building);
    case Build(i, _) => WorkOfMove(s.attempts, i, Tried);
    case Recheck(i) => WorkOfMove(s.attempts, i, Undoing);
    case Undo(i) => WorkOfMove(s.attempts, i, Done);
    case _ =>
  }

  function CountWork(steps: seq<Step>): nat {
    if steps == [] then 0 else (if WorkStep(steps[0]) then 1 else 0) + CountWork(steps[1..])
  }

  /** However ticks and network events interleave, only so many steps of work follow a stop. */
  lemma {:induction false} StoppedRunIsBounded(s: State, steps: seq<Step>)
    requires FlagUp(s) && IsRun(s, steps)
    ensures FlagUp(After(s, steps))
    ensures CountWork(steps) + Work(After(s, steps)) <= Work(s)
    decreases |steps|
  {
    if steps != [] {
      StepUsesWork(s, steps[0]);
      StoppedRunIsBounded(Apply(s, steps[0]), steps[1..]);
    }
  }

  lemma {:induction false} WorkLeft(attempts: seq<Phase>)
    ensures AttemptWork(attempts) == 0 <==> forall i | 0 <= i < |attempts| :: attempts[i] == Done
  {
    if attempts != [] {
      WorkLeft(attempts[1..]);
      assert forall i | 0 <= i < |attempts| - 1 :: attempts[1..][i] == attempts[i + 1];
    }
  }

  /** With the flag up, no work left is the same as all quiet. */
  lemma NoWorkIsQuiet(s: State)
    requires FlagUp(s)
    ensures Work(s) == 0 <==> Quiet(s)
  {
    WorkLeft(s.attempts);
  }

  /**
   Whatever the schedule: once the stop and the attempts have taken as many steps as there was work
   at the flag, all is quiet and no session is left.
   */
  lemma EnoughStepsEndQuiet(s: State, steps: seq<Step>)
    requires Inv(s) && FlagUp(s) && IsRun(s, steps) && CountWork(steps) >= Work(s)
    ensures Quiet(After(s, steps)) && After(s, steps).live == {}
  {
    StoppedRunIsBounded(s, steps);
    NoWorkIsQuiet(After(s, steps));
    RunKeepsInv(s, steps);
  }

  /** A stop never gets stuck: until all is quiet some step of the stop or an attempt can go. */
  lemma StopNeverStuck(s: State)
    requires Inv(s) && FlagUp(s)
    ensures Quiet(s) || exists step :: WorkStep(step) && Enabled(s, step)
  {
    if s.lock.Some? {
      assert Enabled(s, Build(s.lock.value, false));
    } else if s.stop == Stopping {
      assert Enabled(s, StopDisconnect);
    } else if i :| 0 <= i < |s.attempts| && s.attempts[i] != Done {
      match s.attempts[i]
      case Queued => assert Enabled(s, Begin(i));
      case Entered => assert Enabled(s, SkipTry(i));
      case Tried => assert Enabled(s, Recheck(i));
      case Undoing => assert Enabled(s, Undo(i));
      case Building =>
      case Done =>
    }
  }

  /** From any reachable state after the flag, doing the remaining work ends with no session at all. */
  lemma {:induction false} StopCompletes(s: State) returns (steps: seq<Step>)
    requires Inv(s) && FlagUp(s)
    ensures IsRun(s, steps) && |steps| <= Work(s)
    ensures Quiet(After(s, steps)) && After(s, steps).live == {}
    decreases Work(s)
  {
    if Quiet(s) {
      steps := [];
    } else {
      StopNeverStuck(s);
      var step :| WorkStep(step) && Enabled(s, step);
      StepKeepsInv(s, step);
      StepUsesWork(s, step);
      var rest := StopCompletes(Apply(s, step));
      steps := [step] + rest;
      assert steps[1..] == rest;
    }
  }

  // ------------------------------------------------------------------ the reconnect

  lemma OneStep(s: State, step: Step)
    requires Enabled(s, step)
    ensures IsRun(s, [step]) && After(s, [step]) == Apply(s, step)
  {
    assert [step][1..] == [];
  }

  lemma {:induction false} RunsJoin(s: State, a: seq<Step>, b: seq<Step>)
    requires IsRun(s, a) && IsRun(After(s, a), b)
    ensures IsRun(s, a + b) && After(s, a + b) == After(After(s, a), b)
    decreases |a|
  {
    if a == [] {
      assert a + b == b;
    } else {
      assert (a + b)[1..] == a[1..] + b;
      RunsJoin(Apply(s, a[0]), a[1..], b);
    }
  }

  lemma TwoSteps(s: State, a: Step, b: Step)
    requires Enabled(s, a) && Enabled(Apply(s, a), b)
    ensures IsRun(s, [a, b]) && After(s, [a, b]) == Apply(Apply(s, a), b)
  {
    OneStep(s, a);
    OneStep(Apply(s, a), b);
    RunsJoin(s, [a], [b]);
    assert [a] + [b] == [a, b];
  }

  lemma ThreeSteps(s: State, a: Step, b: Step, c: Step)
    requires Enabled(s, a) && Enabled(Apply(s, a), b) && Enabled(Apply(Apply(s, a), b), c)
    ensures IsRun(s, [a, b, c]) && After(s, [a, b, c]) == Apply(Apply(Apply(s, a), b), c)
  {
    TwoSteps(s, a, b);
    OneStep(Apply(Apply(s, a), b), c);
    RunsJoin(s, [a, b], [c]);
    assert [a, b] + [c] == [a, b, c];
  }

  /** How many ticks of a run found the probe running and its link down. */
  function DownTicks(s: State, steps: seq<Step>): nat
    requires IsRun(s, steps)
    decreases |steps|
  {
    if steps == [] then 0
    else
      (if steps[0] == Tick && s.stop == NotStopped && !s.up then 1 else 0) + DownTicks(Apply(s, steps[0]), steps[1..])
  }

  /** One step starts an attempt exactly at a tick that finds the probe running and down, and moves no other. */
  lemma StepStartsAttempts(s: State, step: Step)
    requires Enabled(s, step)
    ensures var t := Apply(s, step);
      && (step == Tick && s.stop == NotStopped && !s.up ==> t == s.(attempts := s.attempts + [Queued]))
      && (step == Tick && (s.stop != NotStopped || s.up) ==> t == s)
      && (step != Tick ==> |t.attempts| == |s.attempts|)
      && (forall i | 0 <= i < |s.attempts| && s.attempts[i] == Done :: t.attempts[i] == Done)
  {
  }

  /** The way of one attempt: out at its first check after the flag, undone at its second. */
  predicate Advances(before: Phase, after: Phase, flagUp: bool) {
    match before
    case Queued => after == if flagUp then Done else Entered
    case Entered => after == Building || after == Tried
    case Building => after == Tried
    case Tried => after == if flagUp then Undoing else Done
    case Undoing => after == Done
    case Done => false
  }

  predicate ConcernsAttempt(step: Step, i: nat) {
    step == Begin(i) || step == SkipTry(i) || step == TakeLock(i) || step == Build(i, true) || step == Build(i, false)
      || step == Recheck(i) || step == Undo(i)
  }

  /** A step moves exactly the attempt it concerns, and only a begin before the flag is counted. */
  lemma StepAdvances(s: State, step: Step, i: nat)
    requires Enabled(s, step) && i < |s.attempts|
    ensures var t := Apply(s, step);
      && (ConcernsAttempt(step, i) ==> Advances(s.attempts[i], t.attempts[i], s.stop != NotStopped))
      && (!ConcernsAttempt(step, i) ==> t.attempts[i] == s.attempts[i])
      && t.connectCalls == s.connectCalls + if step.Begin? && s.stop == NotStopped then 1 else 0
  {
  }

  /** Over any run each attempt was started by its own tick, and every tick that found the link down started one. */
  lemma {:induction false} AttemptsAreDownTicks(s: State, steps: seq<Step>)
    requires IsRun(s, steps)
    ensures |After(s, steps).attempts| == |s.attempts| + DownTicks(s, steps)
    decreases |steps|
  {
    if steps != [] {
      StepStartsAttempts(s, steps[0]);
      AttemptsAreDownTicks(Apply(s, steps[0]), steps[1..]);
    }
  }

  /** The running probe with the client lock free: an attempt that holds it ends without success. */
  lemma LockComesFree(s: State) returns (steps: seq<Step>)
    requires Inv(s)
    ensures IsRun(s, steps) && |steps| <= 1
    ensures var t := After(s, steps);
      && t.live == s.live && t.client == (if s.lock.Some? then Some(s.next) else s.client)
      && t.stop == s.stop && t.lock.None? && t.up == s.up && t.connectCalls == s.connectCalls && t.next >= s.next
      && t.attempts == (if s.lock.Some? then s.attempts[s.lock.value := Tried] else s.attempts)
  {
    if s.lock.Some? {
      steps := [Build(s.lock.value, false)];
      OneStep(s, steps[0]);
    } else {
      steps := [];
    }
  }

  /** One whole attempt from a tick on. */
  function WholeAttempt(n: nat): seq<Step> {
    [Tick, Begin(n), TakeLock(n), Build(n, true), Recheck(n), Revive]
  }

  lemma AttemptSucceeds(s: State)
    requires Inv(s) && s.stop == NotStopped && s.lock.None? && !s.up
    ensures IsRun(s, WholeAttempt(|s.attempts|))
    ensures After(s, WholeAttempt(|s.attempts|)) ==
      s.(client := Some(s.next), live := {s.next}, up := true, next := s.next + 1,
         attempts := s.attempts + [Done], connectCalls := s.connectCalls + 1)
  {
    var n := |s.attempts|;
    var t := AttemptGetsLock(s);
    AttemptEnds(t);
    RunsJoin(s, [Tick, Begin(n), TakeLock(n)], [Build(n, true), Recheck(n), Revive]);
    assert [Tick, Begin(n), TakeLock(n)] + [Build(n, true), Recheck(n), Revive] == WholeAttempt(n);
  }

  lemma AttemptGetsLock(s: State) returns (t: State)
    requires Inv(s) && s.stop == NotStopped && s.lock.None? && !s.up
    ensures var n := |s.attempts|;
      && IsRun(s, [Tick, Begin(n), TakeLock(n)]) && After(s, [Tick, Begin(n), TakeLock(n)]) == t
      && t == s.(client := None, live := {}, lock := Some(n), attempts := s.attempts + [Building],
                 connectCalls := s.connectCalls + 1)
  {
    hide IsRun, After;
    var n := |s.attempts|;
    t := s.(client := None, live := {}, lock := Some(n), attempts := s.attempts + [Building],
            connectCalls := s.connectCalls + 1);
    var begun := s.(attempts := s.attempts + [Entered], connectCalls := s.connectCalls + 1);
    assert (s.attempts + [Queued])[n := Entered] == begun.attempts;
    assert begun.attempts[n := Building] == t.attempts && TearDown(begun).live == {};
    ThreeSteps(s, Tick, Begin(n), TakeLock(n));
  }

  lemma AttemptEnds(t: State)
    requires t.stop == NotStopped && t.live == {} && |t.attempts| > 0 && t.attempts[|t.attempts| - 1] == Building
    ensures var n := |t.attempts| - 1;
      && IsRun(t, [Build(n, true), Recheck(n), Revive])
      && After(t, [Build(n, true), Recheck(n), Revive]) ==
           t.(client := Some(t.next), live := {t.next}, up := true, next := t.next + 1, lock := None,
              attempts := t.attempts[n := Done])
  {
    hide IsRun, After;
    var n := |t.attempts| - 1;
    assert t.attempts[n := Tried][n := Done] == t.attempts[n := Done];
    ThreeSteps(t, Build(n, true), Recheck(n), Revive);
  }

  /**
   A drop is not permanent: from every reachable state of a running probe, whatever other attempts are
   under way, a drop and a tick can be followed to a new session that is the only one.
   */
  lemma DropIsNotPermanent(s: State) returns (steps: seq<Step>)
    requires Inv(s) && s.stop == NotStopped
    ensures IsRun(s, steps) && Tick in steps && (s.up ==> steps[0] == DropLink)
    ensures var t := After(s, steps);
      && t.up && t.stop == NotStopped && t.lock.None?
      && t.client.Some? && t.client.value >= s.next && t.live == {t.client.value}
      && t.connectCalls == s.connectCalls + 1
      && t.attempts == (if s.lock.Some? then s.attempts[s.lock.value := Tried] else s.attempts) + [Done]
  {
    var down: seq<Step> := if s.up then [DropLink] else [];
    if s.up {
      OneStep(s, DropLink);
    }
    RunKeepsInv(s, down);
    var free := LockComesFree(After(s, down));
    RunKeepsInv(After(s, down), free);
    RunsJoin(s, down, free);
    var n := |s.attempts|;
    AttemptSucceeds(After(s, down + free));
    RunsJoin(s, down + free, WholeAttempt(n));
    steps := down + free + WholeAttempt(n);
    assert steps[|down + free|] == Tick;
  }

  /** Attempts overlap: as long as the link stays down every tick can put one more past its first check. */
  lemma {:induction false} AttemptsOverlap(s: State, k: nat) returns (steps: seq<Step>)
    requires s.stop == NotStopped && !s.up
    ensures IsRun(s, steps)
    ensures After(s, steps) ==
      s.(attempts := s.attempts + seq(k, _ => Entered), connectCalls := s.connectCalls + k)
    decreases k
  {
    if k == 0 {
      steps := [];
      assert s.attempts + [] == s.attempts;
    } else {
      var n := |s.attempts|;
      var t := s.(attempts := s.attempts + [Entered], connectCalls := s.connectCalls + 1);
      assert (s.attempts + [Queued])[n := Entered] == t.attempts;
      TwoSteps(s, Tick, Begin(n));
      var rest := AttemptsOverlap(t, k - 1);
      RunsJoin(s, [Tick, Begin(n)], rest);
      steps := [Tick, Begin(n)] + rest;
      assert [Entered] + seq(k - 1, _ => Entered) == seq(k, _ => Entered);
      assert t.attempts + seq(k - 1, _ => Entered) == s.attempts + seq(k, _ => Entered);
    }
  }

  /** An attempt held back by a backoff or by another attempt ends without touching any session. */
  lemma HeldBackAttemptEnds(s: State, i: nat)
    requires At(s, i, Entered) && s.stop == NotStopped
    ensures IsRun(s, [SkipTry(i), Recheck(i)])
    ensures After(s, [SkipTry(i), Recheck(i)]) == s.(attempts := s.attempts[i := Done])
  {
    assert s.attempts[i := Tried][i := Done] == s.attempts[i := Done];
    TwoSteps(s, SkipTry(i), Recheck(i));
  }

  /** A running probe can always be stopped for good, from whatever state it is in. */
  lemma StopFromAnywhere(s: State) returns (steps: seq<Step>)
    requires Inv(s) && s.stop == NotStopped
    ensures IsRun(s, steps) && steps != [] && steps[0] == RaiseFlag
    ensures Quiet(After(s, steps)) && After(s, steps).live == {}
    ensures After(s, steps).connectCalls == s.connectCalls && |After(s, steps).attempts| == |s.attempts|
  {
    OneStep(s, RaiseFlag);
    StepKeepsInv(s, RaiseFlag);
    var rest := StopCompletes(Apply(s, RaiseFlag));
    RunsJoin(s, [RaiseFlag], rest);
    StoppedBuildsNothing(Apply(s, RaiseFlag), rest);
    steps := [RaiseFlag] + rest;
  }

  /** After the flag no attempt is counted, started or let past its first check. */
  lemma {:induction false} StoppedBuildsNothing(s: State, steps: seq<Step>)
    requires FlagUp(s) && IsRun(s, steps)
    ensures After(s, steps).connectCalls == s.connectCalls && |After(s, steps).attempts| == |s.attempts|
    ensures forall i | 0 <= i < |s.attempts| && s.attempts[i] == Queued :: After(s, steps).attempts[i] in {Queued, Done}
    ensures forall i | 0 <= i < |s.attempts| && s.attempts[i] == Done :: After(s, steps).attempts[i] == Done
    decreases |steps|
  {
    if steps != [] {
      StoppedStep(s, steps[0]);
      StoppedBuildsNothing(Apply(s, steps[0]), steps[1..]);
    }
  }

  lemma StoppedStep(s: State, step: Step)
    requires FlagUp(s) && Enabled(s, step)
    ensures var t := Apply(s, step);
      && FlagUp(t) && t.connectCalls == s.connectCalls && |t.attempts| == |s.attempts|
      && (forall i | 0 <= i < |s.attempts| && s.attempts[i] == Queued :: t.attempts[i] in {Queued, Done})
      && (forall i | 0 <= i < |s.attempts| && s.attempts[i] == Done :: t.attempts[i] == Done)
  {
  }
}
