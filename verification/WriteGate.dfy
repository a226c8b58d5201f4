/**
 The state-write gate of the entities with the optimistic lock of numbers and switches:
 Home Assistant is told a state only when it differs from what was last written, and for
 a few seconds after a command the requested value stands against what the device reports.
 */
module WriteGate {
  import opened Text

  const LOCK_SECONDS := 5.0

  /** What Home Assistant shows of an entity. */
  datatype Shown<V> = Offline | Shows(value: V)

  function Display<V>(value: V, available: bool): Shown<V> {
    if available then Shows(value) else Offline
  }

  /** The two sentinels of the gate, next to what Home Assistant shows. */
  datatype Gate<V> = Gate(lastValue: V, lastAvailable: Option<bool>, shown: Shown<V>)

  predicate Passes<V(==)>(g: Gate<V>, value: V, available: bool) {
    g.lastAvailable != Some(available) || value != g.lastValue
  }

  function Written<V>(recorded: V, value: V, available: bool): Gate<V> {
    Gate(recorded, Some(available), Display(value, available))
  }

  /** What Home Assistant shows is what the sentinels remember. */
  predicate Agrees<V(==)>(g: Gate<V>) {
    g.lastAvailable.Some? ==> g.shown == Display(g.lastValue, g.lastAvailable.value)
  }

  /** One value of the coordinator's data; an explicit clear is a value too. */
  datatype Reading = Cleared | Flag(on: bool) | Num(x: real) | Other(truthy: bool)

  /** An entity exists only after its coordinator's first refresh: there is always data, perhaps empty. */
  type Data = map<string, Reading>

  /** The monotonic clock, in seconds. */
  type Clock = t: real | 0.0 <= t

  /** What an entity can see of its coordinator, at a time. */
  datatype View = View(data: Data, available: bool, rollback: int, now: Clock)

  // -------------------------------------------------------------------- numbers

  datatype Range = Range(low: real, high: real)

  datatype Definition = Definition(key: string, step: Option<real>, declared: Range, derive: Data -> Option<Range>)

  datatype Number = Number(gate: Gate<Option<real>>, bounds: Range, lastBounds: Option<Range>,
                           restored: Option<real>, lockUntil: real, seen: int)

  /** Python's `round`: to the nearest integer, halves to the even one. */
  function RoundHalfEven(x: real): (n: int)
    ensures x - 0.5 <= n as real <= x + 0.5
    ensures x == x.Floor as real ==> n == x.Floor
    ensures x == x.Floor as real + 0.5 ==> n % 2 == 0
  {
    var f := x.Floor;
    var d := x - f as real;
    if d < 0.5 || (d == 0.5 && f % 2 == 0) then f else f + 1
  }

  function Clean(def: Definition, x: real): real {
    if def.step.Some? && def.step.value >= 1.0 then RoundHalfEven(x) as real else x
  }

  function Native(def: Definition, restored: Option<real>, data: Data): Option<real> {
    if def.key !in data then restored
    else match data[def.key]
      case Num(x) => Some(Clean(def, x))
      case Flag(on) => Some(Clean(def, if on then 1.0 else 0.0))
      case _ => None
  }

  /** A number reads what the device reports under its key, rounded on whole steps; else what was restored. */
  lemma NumberReads(def: Definition, restored: Option<real>, data: Data)
    ensures def.key !in data ==> Native(def, restored, data) == restored
    ensures (def.key in data && (data[def.key].Cleared? || data[def.key].Other?) ==>
      Native(def, restored, data) == None)
    ensures (def.key in data && data[def.key].Num? ==>
      var x, n := data[def.key].x, Native(def, restored, data);
      && n.Some?
      && if def.step.Some? && def.step.value >= 1.0 then
           && n.value == n.value.Floor as real && x - 0.5 <= n.value <= x + 0.5
           && (x == x.Floor as real + 0.5 ==> n.value.Floor % 2 == 0)
         else n.value == x)
    ensures (def.key in data && data[def.key].Flag? ==>
      Native(def, restored, data) == Some(if data[def.key].on then 1.0 else 0.0))
  {
  }

  /** The bounds that hold now: the derived ones, else the declared ones. */
  function Effective(def: Definition, data: Data): Range {
    var b := def.derive(data);
    if b.Some? then b.value else def.declared
  }

  predicate Locked(s: Number, v: View) {
    v.rollback == s.seen && v.now < s.lockUntil
  }

  predicate BoundsMove(def: Definition, s: Number, v: View) {
    var b := def.derive(v.data);
    b.Some? && b != s.lastBounds
  }

  /** An update from the coordinator, as the number handles it. */
  function Updated(def: Definition, s: Number, v: View): Number {
    if Locked(s, v) then s
    else
      var native := Native(def, s.restored, v.data);
      var writes := BoundsMove(def, s, v) || Passes(s.gate, native, v.available);
      Number(if writes then Written(native, native, v.available) else s.gate,
             if writes then Effective(def, v.data) else s.bounds,
             if BoundsMove(def, s, v) then def.derive(v.data) else s.lastBounds,
             s.restored, if v.rollback != s.seen then 0.0 else s.lockUntil, v.rollback)
  }

  function WithValue(def: Definition, data: Data, value: real): Data {
    data[def.key := Num(value)]
  }

  /** An accepted command: the data, the lock and Home Assistant take the requested value at once. */
  function Requested(def: Definition, s: Number, v: View, value: real): Number {
    var data := WithValue(def, v.data, value);
    s.(lockUntil := v.now + LOCK_SECONDS,
       gate := Written(Some(value), Native(def, s.restored, data), v.available),
       bounds := Effective(def, data))
  }

  /** The entity joins Home Assistant, which then writes its first state. */
  function Added(def: Definition, v: View, last: Option<real>): Number {
    var range := Effective(def, v.data);
    var restored := if def.key !in v.data && last.Some? && range.low <= last.value <= range.high then last else None;
    Number(Written(restored, Native(def, restored, v.data), v.available), range, None, restored, 0.0, v.rollback)
  }

  /** What was stored comes back exactly where the device reports nothing and the range that holds takes it. */
  lemma RestoredIff(def: Definition, v: View, last: Option<real>, x: real)
    ensures Added(def, v, last).restored == Some(x) <==>
      && def.key !in v.data && last == Some(x)
      && var derived := def.derive(v.data);
         if derived.Some? then derived.value.low <= x <= derived.value.high
         else def.declared.low <= x <= def.declared.high
  {
  }

  /** The object behind the numbers and switches of one device. */
  class Coordinator {
    var data: Data
    var available: bool
    var rollback: int

    constructor (data: Data, available: bool, rollback: int)
      ensures Look(0.0) == View(data, available, rollback, 0.0)
    {
      this.data, this.available, this.rollback := data, available, rollback;
    }

    function Look(now: Clock): View
      reads this
    {
      View(data, available, rollback, now)
    }
  }

  /** The gate every platform shares. */
  class StateGate<V(==)> {
    var lastValue: V
    var lastAvailable: Option<bool>
    var shown: Shown<V>

    constructor (value: V)
      ensures State() == Gate(value, None, Offline)
    {
      lastValue, lastAvailable, shown := value, None, Offline;
    }

    function State(): Gate<V>
      reads this
    {
      Gate(lastValue, lastAvailable, shown)
    }

    /** Home Assistant reads the entity's own value and availability when it writes. */
    method WriteState(value: V, available: bool)
      modifies this`shown
      ensures shown == Display(value, available)
    {
      shown := if available then Shows(value) else Offline;
    }

    /** Write only when the value or the availability differs from the last write. */
    method WriteStateIfChanged(value: V, available: bool) returns (wrote: bool)
      modifies this
      ensures wrote <==> old(lastAvailable) != Some(available) || value != old(lastValue)
      ensures wrote <==> Passes(old(State()), value, available)
      ensures State() == if Passes(old(State()), value, available) then Written(value, value, available)
        else old(State())
    {
      if lastAvailable.Some? && value == lastValue && available == lastAvailable.value {
        return false;
      }
      lastValue, lastAvailable := value, Some(available);
      WriteState(value, available);
      return true;
    }

    method WriteStateAlways(recorded: V, value: V, available: bool)
      modifies this
      ensures State() == Written(recorded, value, available)
    {
      lastValue, lastAvailable := recorded, Some(available);
      WriteState(value, available);
    }
  }

  /** A number entity; `bounds` are the ones Home Assistant took over with its last state write. */
  class NumberEntity {
    const def: Definition
    const coordinator: Coordinator
    const gate: StateGate<Option<real>>
    var bounds: Range
    var lastBounds: Option<Range>
    var restored: Option<real>
    var lockUntil: real
    var seen: int

    function State(): Number
      reads this, gate
    {
      Number(gate.State(), bounds, lastBounds, restored, lockUntil, seen)
    }

    constructor (def: Definition, coordinator: Coordinator, last: Option<real>)
      ensures fresh(gate) && this.coordinator == coordinator && this.def == def
      ensures State() == Added(def, coordinator.Look(0.0), last)
    {
      this.def, this.coordinator := def, coordinator;
      var g := new StateGate<Option<real>>(None);
      gate := g;
      restored, lastBounds, lockUntil, seen := None, None, 0.0, coordinator.rollback;
      bounds := Effective(def, coordinator.data);
      new;
      gate.lastAvailable := Some(coordinator.available);
      if def.key !in coordinator.data && last.Some? && bounds.low <= last.value <= bounds.high {
        restored := last;
        gate.lastValue := last;
      }
      gate.WriteState(Native(def, restored, coordinator.data), coordinator.available);
    }

    /** Record a change of the derived bounds. */
    method BoundsMoved() returns (moved: bool)
      modifies this`lastBounds
      ensures moved <==> BoundsMove(def, old(State()), coordinator.Look(0.0))
      ensures lastBounds == if moved then def.derive(coordinator.data) else old(lastBounds)
    {
      var b := def.derive(coordinator.data);
      moved := b.Some? && b != lastBounds;
      if moved {
        lastBounds := b;
      }
    }

    method HandleCoordinatorUpdate(now: Clock)
      modifies this, gate
      ensures State() == Updated(def, old(State()), coordinator.Look(now))
    {
      if coordinator.rollback != seen {
        seen := coordinator.rollback;
        lockUntil := 0.0;
      } else if now < lockUntil {
        return;
      }
      var native := Native(def, restored, coordinator.data);
      var moved := BoundsMoved();
      var wrote := moved;
      if moved {
        gate.WriteStateAlways(native, native, coordinator.available);
      } else {
        wrote := gate.WriteStateIfChanged(native, coordinator.available);
      }
      if wrote {
        bounds := Effective(def, coordinator.data);
      }
    }

    method ApplyOptimisticNumber(now: Clock, value: real)
      modifies this, gate, coordinator
      ensures State() == Requested(def, old(State()), old(coordinator.Look(now)), value)
      ensures coordinator.data == WithValue(def, old(coordinator.data), value)
      ensures coordinator.available == old(coordinator.available) && coordinator.rollback == old(coordinator.rollback)
    {
      coordinator.data := coordinator.data[def.key := Num(value)];
      lockUntil := now + LOCK_SECONDS;
      gate.WriteStateAlways(Some(value), Native(def, restored, coordinator.data), coordinator.available);
      bounds := Effective(def, coordinator.data);
    }
  }

  // -------------------------------------------------------- two numbers with derived bounds

  /** A setting as an integer, when a whole number is known. */
  function AsKnownInt(data: Data, key: string): Option<int> {
    if key in data && data[key].Num? && data[key].x == data[key].x.Floor as real then Some(data[key].x.Floor) else None
  }

  /** The Delta 3 backup reserve: five points above the discharge limit to the charge limit, always derived. */
  function Delta3ReserveBounds(data: Data): Option<Range> {
    var discharge, charge := AsKnownInt(data, "min_discharge_soc_pct"), AsKnownInt(data, "max_charge_soc_pct");
    var low := if discharge.Some? && discharge.value + 5 > 5 then discharge.value + 5 else 5;
    var high := if charge.Some? && charge.value < 100 then charge.value else 100;
    Some(if low > high then Range(5.0, 100.0) else Range(low as real, high as real))
  }

  /** The export power of a feed-to-grid slot: the declared range until a feed limit above the floor is known. */
  function FeedScheduleBounds(data: Data): Option<Range> {
    var ceiling := AsKnownInt(data, "ems_feed_power_limit_w");
    if ceiling.None? || ceiling.value <= 100 then None else Some(Range(100.0, ceiling.value as real))
  }

  /** The reserve's range lies within five to a hundred and follows the two limits as long as they leave room. */
  lemma ReserveRange(data: Data)
    ensures Delta3ReserveBounds(data).Some?
    ensures var r := Delta3ReserveBounds(data).value; 5.0 <= r.low <= r.high <= 100.0
    ensures var discharge, charge := AsKnownInt(data, "min_discharge_soc_pct"), AsKnownInt(data, "max_charge_soc_pct");
      var r := Delta3ReserveBounds(data).value;
      && (discharge.None? && charge.None? ==> r == Range(5.0, 100.0))
      && (discharge.Some? && charge.Some? && 0 <= discharge.value && discharge.value + 5 <= charge.value <= 100 ==>
            r == Range((discharge.value + 5) as real, charge.value as real))
      && (discharge.Some? && discharge.value > 95 ==> r == Range(5.0, 100.0))
      && (charge.Some? && charge.value < 5 ==> r == Range(5.0, 100.0))
  {
  }

  /** A known feed limit above the floor is the ceiling of a slot. */
  lemma FeedRange(data: Data, r: Range)
    ensures FeedScheduleBounds(data) == Some(r) <==>
      && r.low == 100.0 && r.high > 100.0 && r.high == r.high.Floor as real
      && "ems_feed_power_limit_w" in data && data["ems_feed_power_limit_w"] == Num(r.high)
  {
  }

  const DELTA3_RESERVE := Definition("backup_reserve_soc_pct", Some(1.0), Range(5.0, 100.0), Delta3ReserveBounds)
  const FEED_SCHEDULE := Definition("feed_schedule_1_power_w", Some(100.0), Range(100.0, 5000.0), FeedScheduleBounds)

  // -------------------------------------------------------------------- switches

  /** A switch of a device that reports on and off under one key. */
  datatype SwitchDef = SwitchDef(key: string, ocean2: bool)

  datatype Switch = Switch(gate: Gate<Option<bool>>, restored: Option<bool>, requested: bool, lockUntil: real,
                           seen: int)

  function Reported(def: SwitchDef, restored: Option<bool>, data: Data): Option<bool> {
    if def.key !in data then restored
    else match data[def.key]
      case Cleared => None
      case Flag(on) => Some(on)
      case Num(x) => Some(x != 0.0)
      case Other(truthy) => Some(truthy)
  }

  /** A switch is on for a true flag, a number other than zero and any other true value; else what was restored. */
  lemma SwitchReads(def: SwitchDef, restored: Option<bool>, data: Data)
    ensures def.key !in data ==> Reported(def, restored, data) == restored
    ensures (def.key in data ==>
      && (Reported(def, restored, data) == None <==> data[def.key] == Cleared)
      && (Reported(def, restored, data) == Some(true) <==>
            || data[def.key] == Flag(true) || data[def.key] == Other(true)
            || (data[def.key].Num? && (data[def.key].x < 0.0 || data[def.key].x > 0.0))))
  {
  }

  function IsOn(def: SwitchDef, s: Switch, v: View): Option<bool> {
    if v.now < s.lockUntil then Some(s.requested) else Reported(def, s.restored, v.data)
  }

  /** A rollback on an Ocean 2 lifts the lock; elsewhere it may belong to another entity. */
  function AfterRollback(def: SwitchDef, s: Switch, v: View): Switch {
    s.(seen := v.rollback, lockUntil := if v.rollback != s.seen && def.ocean2 then 0.0 else s.lockUntil)
  }

  function SwitchUpdated(def: SwitchDef, s: Switch, v: View): Switch {
    var t := AfterRollback(def, s, v);
    var on := IsOn(def, t, v);
    t.(gate := if Passes(t.gate, on, v.available) then Written(on, on, v.available) else t.gate)
  }

  function SwitchRequested(s: Switch, v: View, on: bool): Switch {
    s.(requested := on, lockUntil := v.now + LOCK_SECONDS, gate := Written(Some(on), Some(on), v.available))
  }

  function SwitchAdded(def: SwitchDef, v: View, last: Option<bool>): Switch {
    var restored := if def.key in v.data then None else last;
    Switch(Written(restored, Reported(def, restored, v.data), v.available), restored, false, 0.0, v.rollback)
  }

  /** What was stored comes back exactly where the device reports nothing. */
  lemma SwitchRestoredIff(def: SwitchDef, v: View, last: Option<bool>, on: bool)
    ensures SwitchAdded(def, v, last).restored == Some(on) <==> def.key !in v.data && last == Some(on)
  {
  }

  class SwitchEntity {
    const def: SwitchDef
    const coordinator: Coordinator
    const gate: StateGate<Option<bool>>
    var restored: Option<bool>
    var requested: bool
    var lockUntil: real
    var seen: int

    function State(): Switch
      reads this, gate
    {
      Switch(gate.State(), restored, requested, lockUntil, seen)
    }

    constructor (def: SwitchDef, coordinator: Coordinator, last: Option<bool>)
      ensures fresh(gate) && this.coordinator == coordinator && this.def == def
      ensures State() == SwitchAdded(def, coordinator.Look(0.0), last)
    {
      this.def, this.coordinator := def, coordinator;
      var g := new StateGate<Option<bool>>(None);
      gate := g;
      restored, requested, lockUntil, seen := None, false, 0.0, coordinator.rollback;
      new;
      gate.lastAvailable := Some(coordinator.available);
      if def.key !in coordinator.data && last.Some? {
        restored := last;
        gate.lastValue := last;
      }
      gate.WriteState(Reported(def, restored, coordinator.data), coordinator.available);
    }

    method HandleCoordinatorUpdate(now: Clock)
      modifies this, gate
      ensures State() == SwitchUpdated(def, old(State()), coordinator.Look(now))
    {
      if coordinator.rollback != seen {
        seen := coordinator.rollback;
        if def.ocean2 {
          lockUntil := 0.0;
        }
      }
      var on := if now < lockUntil then Some(requested) else Reported(def, restored, coordinator.data);
      var wrote := gate.WriteStateIfChanged(on, coordinator.available);
    }

    method ApplyOptimistic(now: Clock, turnOn: bool)
      modifies this, gate
      ensures State() == SwitchRequested(old(State()), coordinator.Look(now), turnOn)
    {
      requested := turnOn;
      lockUntil := now + LOCK_SECONDS;
      gate.WriteStateAlways(Some(turnOn), Some(turnOn), coordinator.available);
    }
  }
}
