/**
 The coordinator of one charger's history: restore, fetch, merge, save, read back and
 publish, against a cloud and a store that can fail at every call; and the discovery of
 one entity per vehicle.
 */
module ChargingHistory {
  import opened Text
  import opened OrderedDict
  import opened Ledger
  import opened LedgerProofs

  /** An OSError or a HomeAssistantError, against a ValueError or a timeout: they are caught apart. */
  datatype Fault = OsFault | ValueFault

  /** What a store holds: nothing, something of another shape, or a ledger. */
  datatype Stored = Nothing | Malformed | Holds(ledger: Saved)

  datatype Loaded = LoadFailed(fault: Fault) | Loaded(stored: Stored)

  /** JSON objects have each key once. */
  predicate Keyed(stored: Stored) {
    stored.Holds? ==> Distinct(stored.ledger.orders) && Distinct(stored.ledger.vehicles)
  }

  /** A store that may fail, lose or alter what it is given. */
  class Store {
    ghost var loads: seq<Loaded>
    ghost var saves: seq<Saved>
    /** How each save ended. */
    ghost var outcomes: seq<Option<Fault>>

    constructor ()
      ensures loads == [] && saves == [] && outcomes == []
    {
      loads, saves, outcomes := [], [], [];
    }

    method Load() returns (r: Loaded)
      modifies this
      ensures loads == old(loads) + [r] && saves == old(saves) && outcomes == old(outcomes)
      ensures r.Loaded? ==> Keyed(r.stored)
    {
      r := *;
      if r.Loaded? && !Keyed(r.stored) {
        r := Loaded(Malformed);
      }
      loads := loads + [r];
    }

    method Save(ledger: Saved) returns (fault: Option<Fault>)
      modifies this
      ensures saves == old(saves) + [ledger] && loads == old(loads) && outcomes == old(outcomes) + [fault]
    {
      fault := *;
      saves, outcomes := saves + [ledger], outcomes + [fault];
    }
  }

  /** How the fetch of the cloud rows ends. */
  datatype Fetch =
    | Rows(rows: seq<Row>)
    | Deferred(delay: int, authentication: bool)
    | CloudError
    | LoginError
    | SystemError

  const POLL_INTERVAL := 300
  const LOGIN_RETRY := 3600

  /** The same ledger, whatever the order of its keys. */
  predicate SameLedger(a: Saved, b: Saved) {
    Same(a.orders, b.orders) && Same(a.vehicles, b.vehicles)
  }

  /** The ledger was loaded from the store at some time. */
  ghost predicate WasLoaded(loads: seq<Loaded>, ledger: Saved) {
    exists i | 0 <= i < |loads| :: loads[i].Loaded? && loads[i].stored.Holds?
      && SameLedger(loads[i].stored.ledger, ledger)
  }

  /** What a read-back says: its own fault, none when the same ledger is there, an OSError for anything else. */
  function ReadBackFault(r: Loaded, ledger: Saved): Option<Fault> {
    match r
    case LoadFailed(fault) => Some(fault)
    case Loaded(Holds(found)) => if SameLedger(found, ledger) then None else Some(OsFault)
    case Loaded(_) => Some(OsFault)
  }

  /** Why `next` cannot be published over `base`, by the save and the load that followed it; nothing is saved twice. */
  function SaveFault(base: Saved, next: Saved, outcomes: seq<Option<Fault>>, loaded: seq<Loaded>): Option<Fault> {
    if SameLedger(next, base) || outcomes == [] then None
    else if outcomes[0].Some? || loaded == [] then outcomes[0]
    else ReadBackFault(loaded[0], next)
  }

  /** The saves and loads of one poll with rows: none when nothing moved, no load after a refused save. */
  predicate SavedOnce(base: Saved, next: Saved, saves: seq<Saved>, outcomes: seq<Option<Fault>>, loaded: seq<Loaded>) {
    if SameLedger(next, base) then saves == [] && outcomes == [] && loaded == []
    else saves == [next] && |outcomes| == 1 && |loaded| == if outcomes[0].Some? then 0 else 1
  }

  lemma SameLedgerTransitive(a: Saved, b: Saved, c: Saved)
    requires SameLedger(a, b) && SameLedger(b, c)
    ensures SameLedger(a, c)
  {
    SameIff(a.orders, b.orders);
    SameIff(b.orders, c.orders);
    SameIff(a.orders, c.orders);
    SameIff(a.vehicles, b.vehicles);
    SameIff(b.vehicles, c.vehicles);
    SameIff(a.vehicles, c.vehicles);
  }

  lemma StillLoaded(loads: seq<Loaded>, more: seq<Loaded>, a: Saved, b: Saved)
    requires WasLoaded(loads, a) && loads <= more && SameLedger(a, b)
    ensures WasLoaded(more, b)
  {
    var i :| 0 <= i < |loads| && loads[i].Loaded? && loads[i].stored.Holds? && SameLedger(loads[i].stored.ledger, a);
    SameLedgerTransitive(loads[i].stored.ledger, a, b);
    assert more[i] == loads[i];
  }

  class Coordinator {
    const serial: string
    const iso: IsoParser
    const store: Store
    var orders: Orders
    var data: Totals
    var available: bool
    var restoreFailed: bool
    var interval: int

    function Ledger(): Saved
      reads this
    {
      Saved(orders, data)
    }

    /**
     What memory holds is the empty start or came out of the store, it adds up, and an
     unread store means nothing was ever put in memory.
     */
    ghost predicate Valid()
      reads this, store
    {
      && Distinct(data) && GoodOrders(orders, iso)
      && ValidSavedLedger(Ledger(), iso)
      && (restoreFailed ==> orders == [] && data == [])
      && ((orders == [] && data == []) || WasLoaded(store.loads, Ledger()))
    }

    constructor (serial: string, iso: IsoParser, store: Store)
      ensures Valid() && orders == [] && data == [] && !restoreFailed
      ensures this.serial == serial && this.iso == iso && this.store == store
    {
      this.serial, this.iso, this.store := serial, iso, store;
      orders, data, available, restoreFailed, interval := [], [], true, false, POLL_INTERVAL;
    }

    method Restore()
      requires Valid() && orders == [] && data == []
      modifies this, store
      ensures Valid() && store.saves == old(store.saves) && store.outcomes == old(store.outcomes)
      ensures |store.loads| == |old(store.loads)| + 1 && old(store.loads) <= store.loads
      ensures var r := store.loads[|old(store.loads)|];
        && (restoreFailed <==> r.LoadFailed?)
        && available == !restoreFailed
        && Ledger() == (match r
             case Loaded(Holds(ledger)) => if ValidSavedLedger(ledger, iso) then ledger else Saved([], [])
             case _ => Saved([], []))
        && Ledger() == AfterLoad(r, iso)
      ensures interval == old(interval)
    {
      var r := store.Load();
      if r.LoadFailed? {
        restoreFailed, available := true, false;
        return;
      }
      restoreFailed := false;
      MarkAvailable();
      match r.stored
      case Nothing => return;
      case Malformed => return;
      case Holds(ledger) =>
        if !ValidSavedLedger(ledger, iso) {
          return;
        }
        ValidIffTotalsRight(ledger, iso);
        orders, data := ledger.orders, ledger.vehicles;
        SameItself(ledger);
        assert store.loads[|old(store.loads)|] == r;
    }

    method MarkAvailable()
      modifies this`available
      ensures available
    {
      available := true;
    }

    method MarkUnavailable()
      modifies this`available
      ensures !available
    {
      available := false;
    }

    /** Save, then read back; the fault of the step that failed, if any. */
    method SaveVerified(ledger: Saved) returns (fault: Option<Fault>)
      modifies store
      ensures store.saves == old(store.saves) + [ledger] && old(store.loads) <= store.loads
      ensures old(store.outcomes) <= store.outcomes && |store.outcomes| == |old(store.outcomes)| + 1
      ensures var saved, loaded := store.outcomes[|old(store.outcomes)|], store.loads[|old(store.loads)|..];
        if saved.Some? then loaded == [] && fault == saved
        else |loaded| == 1 && fault == ReadBackFault(loaded[0], ledger)
      ensures fault.None? ==> WasLoaded(store.loads, ledger)
    {
      fault := store.Save(ledger);
      if fault.Some? {
        return;
      }
      var r := store.Load();
      match r
      case LoadFailed(f) => fault := Some(f);
      case Loaded(stored) =>
        if !stored.Holds? || !SameLedger(stored.ledger, ledger) {
          return Some(OsFault);
        }
        assert store.loads[|old(store.loads)|] == r;
    }

    /** A response with rows: merge, and save before publishing when anything moved. */
    method PublishRows(rows: seq<Row>) returns (failed: bool)
      requires Valid() && !restoreFailed
      modifies this`orders, this`data, this`available, store
      ensures Valid() && old(store.loads) <= store.loads
      ensures old(store.saves) <= store.saves && old(store.outcomes) <= store.outcomes
      ensures forall v | Has(old(data), v) :: Has(data, v)
      ensures forall k | Has(old(orders), k) :: Has(orders, k)
      ensures var saves, loaded := store.saves[|old(store.saves)|..], store.loads[|old(store.loads)|..];
        var outcomes := store.outcomes[|old(store.outcomes)|..];
        match MergeOrders(old(orders), rows, serial, iso)
        case None => !failed && !available && Ledger() == old(Ledger()) && saves == [] && outcomes == [] && loaded == []
        case Some(merged) =>
          var next := Saved(merged, NewTotals(old(data), merged, iso));
          var fault := SaveFault(old(Ledger()), next, outcomes, loaded);
          && SavedOnce(old(Ledger()), next, saves, outcomes, loaded)
          && (failed <==> fault == Some(OsFault))
          && available == (if fault.None? then true else fault == Some(OsFault) && old(available))
          && Ledger() == (if fault.None? then next else old(Ledger()))
    {
      hide Distinct, GoodOrders, ValidSavedLedger, WasLoaded, Same, Has, MergeOrders, NewTotals;
      var merged := MergeOrders(orders, rows, serial, iso);
      if merged.None? {
        MarkUnavailable();
        return false;
      }
      var totals := NewTotals(data, merged.value, iso);
      MergedLedger(Ledger(), rows, serial, iso);
      if !Same(merged.value, orders) || !Same(totals, data) {
        var fault := SaveVerified(Saved(merged.value, totals));
        if fault.Some? {
          StillValid(old(store.loads), store.loads, Ledger());
          if fault.value == ValueFault {
            MarkUnavailable();
            return false;
          }
          return true;
        }
      } else {
        UnchangedStaysLoaded(store.loads, Saved(merged.value, totals), Ledger());
      }
      orders := merged.value;
      MarkAvailable();
      data := totals;
      return false;
    }

    /** What a poll starts from: the ledger in memory, or the one a retried restore just brought. */
    ghost function Base(retry: bool, before: Saved, n: nat): Saved
      reads this, store
    {
      if retry && n < |store.loads| then AfterLoad(store.loads[n], iso) else before
    }

    /** One poll; `failed` is UpdateFailed, and otherwise `data` is what is published. */
    method Update(fetch: Fetch) returns (failed: bool)
      requires Valid()
      modifies this, store
      ensures Valid() && old(store.loads) <= store.loads
      ensures old(store.saves) <= store.saves && old(store.outcomes) <= store.outcomes
      // no vehicle and no order is ever lost
      ensures forall v | Has(old(data), v) :: Has(data, v)
      ensures forall k | Has(old(orders), k) :: Has(orders, k)
      // a store that could not be read is read again first, and not written while that fails
      ensures old(restoreFailed) ==> |store.loads| > |old(store.loads)|
      ensures restoreFailed <==> old(restoreFailed) && store.loads[|old(store.loads)|].LoadFailed?
      ensures restoreFailed ==> failed && store.saves == old(store.saves) && Ledger() == old(Ledger())
      // a poll without rows saves nothing and leaves the ledger as it was, or as it was just restored
      ensures !fetch.Rows? ==>
        store.saves == old(store.saves) && Ledger() == Base(old(restoreFailed), old(Ledger()), |old(store.loads)|)
      // rows are saved and read back before they are published, and published exactly when that succeeds
      ensures !restoreFailed && fetch.Rows? ==>
        var base := Base(old(restoreFailed), old(Ledger()), |old(store.loads)|);
        var wasAvailable := old(restoreFailed) || old(available);
        var saves, outcomes := store.saves[|old(store.saves)|..], store.outcomes[|old(store.outcomes)|..];
        var loaded := store.loads[|old(store.loads)| + (if old(restoreFailed) then 1 else 0)..];
        match MergeOrders(base.orders, fetch.rows, serial, iso)
        case None => !failed && !available && Ledger() == base && saves == []
        case Some(merged) =>
          var next := Saved(merged, NewTotals(base.vehicles, merged, iso));
          var fault := SaveFault(base, next, outcomes, loaded);
          && SavedOnce(base, next, saves, outcomes, loaded)
          && (failed <==> fault == Some(OsFault))
          && available == (if fault.None? then true else fault == Some(OsFault) && wasAvailable)
          && Ledger() == (if fault.None? then next else base)
      // the next poll and the availability follow the way the fetch ended
      ensures restoreFailed ==> interval == old(interval)
      ensures !restoreFailed ==>
        match fetch
        case Deferred(delay, _) => interval == if delay < 1 then 1 else if delay > 3600 then 3600 else delay
        case LoginError => interval == 3600
        case Rows(_) => interval == 300
        case _ => interval == old(interval)
      ensures !restoreFailed ==>
        match fetch
        case Deferred(_, authentication) =>
          !failed && available == (!authentication && (old(restoreFailed) || old(available)))
        case CloudError => !failed && !available
        case LoginError => !failed && !available
        case SystemError => failed && available == (old(restoreFailed) || old(available))
        case Rows(_) => true
    {
      hide Distinct, GoodOrders, ValidSavedLedger, WasLoaded, SameLedger, MergeOrders, NewTotals;
      if restoreFailed {
        Restore();
        if restoreFailed {
          return true;
        }
      }
      match fetch {
        case Deferred(delay, authentication) =>
          interval := Clamp(delay);
          if authentication {
            MarkUnavailable();
          }
          return false;
        case CloudError =>
          MarkUnavailable();
          return false;
        case LoginError =>
          interval := LOGIN_RETRY;
          MarkUnavailable();
          return false;
        case SystemError =>
          return true;
        case Rows(rows) =>
          interval := POLL_INTERVAL;
          failed := PublishRows(rows);
      }
    }
  }

  lemma MergedLedger(base: Saved, rows: seq<Row>, serial: string, iso: IsoParser)
    requires Distinct(base.vehicles) && GoodOrders(base.orders, iso)
    ensures var merged := MergeOrders(base.orders, rows, serial, iso);
      merged.Some? ==>
        var next := Saved(merged.value, NewTotals(base.vehicles, merged.value, iso));
        && Distinct(next.vehicles) && GoodOrders(next.orders, iso) && ValidSavedLedger(next, iso)
        && (forall v | Has(base.vehicles, v) :: Has(next.vehicles, v))
        && (forall k | Has(base.orders, k) :: Has(next.orders, k))
  {
    var merged := MergeOrders(base.orders, rows, serial, iso);
    if merged.Some? {
      MergeKeepsOrders(base.orders, rows, serial, iso);
      SavedLedgerIsAccepted(base.vehicles, merged.value, iso);
      NewTotalsAreRight(base.vehicles, merged.value, iso, Digest(""));
      forall v | Has(base.vehicles, v) ensures Has(NewTotals(base.vehicles, merged.value, iso), v) {
        NewTotalsAreRight(base.vehicles, merged.value, iso, v);
      }
    }
  }

  /** Later loads do not take away what was loaded before. */
  lemma StillValid(loads: seq<Loaded>, more: seq<Loaded>, ledger: Saved)
    requires loads <= more
    ensures WasLoaded(loads, ledger) ==> WasLoaded(more, ledger)
  {
    if WasLoaded(loads, ledger) {
      SameItself(ledger);
      StillLoaded(loads, more, ledger, ledger);
    }
  }

  lemma SameItself(a: Saved)
    ensures SameLedger(a, a)
  {
    SameIff(a.orders, a.orders);
    SameIff(a.vehicles, a.vehicles);
  }

  lemma SameAsEmpty<K, V>(d: Dict<K, V>)
    requires Same(d, [])
    ensures d == []
  {
    assert d != [] ==> !Has<K, V>([], d[0].0);
  }

  lemma SameSymmetric<K, V>(a: Dict<K, V>, b: Dict<K, V>)
    requires Same(a, b)
    ensures Same(b, a)
  {
    SameIff(a, b);
    SameIff(b, a);
  }

  lemma UnchangedStaysLoaded(loads: seq<Loaded>, next: Saved, base: Saved)
    requires SameLedger(next, base)
    requires (base.orders == [] && base.vehicles == []) || WasLoaded(loads, base)
    ensures (next.orders == [] && next.vehicles == []) || WasLoaded(loads, next)
  {
    if base.orders == [] && base.vehicles == [] {
      SameAsEmpty(next.orders);
      SameAsEmpty(next.vehicles);
    } else {
      SameSymmetric(next.orders, base.orders);
      SameSymmetric(next.vehicles, base.vehicles);
      StillLoaded(loads, loads, base, next);
    }
  }

  function Clamp(delay: int): int {
    var low := if delay < 1 then 1 else delay;
    if low > 3600 then 3600 else low
  }

  /** What a restore puts into memory for each result of the load. */
  function AfterLoad(r: Loaded, iso: IsoParser): Saved {
    if r.Loaded? && r.stored.Holds? && ValidSavedLedger(r.stored.ledger, iso) then r.stored.ledger
    else Saved([], [])
  }

  // -------------------------------------------------------------------- discovery

  /** One entity per vehicle, added when its first completed order is known. */
  class Discovery {
    const coordinator: Coordinator
    var known: set<Digest>
    var entities: seq<Digest>

    /** The entities are exactly the known vehicles, each once. */
    ghost predicate Valid()
      reads this
    {
      && (forall i, j | 0 <= i < j < |entities| :: entities[i] != entities[j])
      && (forall k :: k in known <==> k in entities)
    }

    constructor (coordinator: Coordinator)
      ensures Valid() && entities == [] && this.coordinator == coordinator
    {
      this.coordinator := coordinator;
      known, entities := {}, [];
    }

    method Discover()
      requires Valid()
      modifies this`known, this`entities
      ensures Valid() && old(entities) <= entities
      ensures forall k :: k in known <==> k in old(known) || Has(coordinator.data, k)
    {
      var keys := set i | 0 <= i < |coordinator.data| :: coordinator.data[i].0;
      var unseen := keys - known;
      ghost var entities0, known0 := entities, known;
      while unseen != {}
        invariant Valid() && entities0 <= entities
        invariant known + unseen == known0 + keys && known !! unseen
        decreases unseen
      {
        var k :| k in unseen;
        entities := entities + [k];
        known := known + {k};
        unseen := unseen - {k};
      }
      forall k ensures k in keys <==> Has(coordinator.data, k) {
        HasIff(coordinator.data, k);
      }
    }
  }

  /**
   Setup and then any number of polls: after each one every entity ever created still
   has a value, every published vehicle has exactly one entity, and no vehicle was lost.
   */
  method RunHistory(coordinator: Coordinator, fetches: seq<Fetch>) returns (discovery: Discovery)
    requires coordinator.Valid() && coordinator.orders == [] && coordinator.data == []
    modifies coordinator, coordinator.store
    ensures coordinator.Valid() && discovery.Valid() && discovery.coordinator == coordinator
    ensures forall k :: k in discovery.entities <==> Has(coordinator.data, k)
  {
    coordinator.Restore();
    discovery := new Discovery(coordinator);
    discovery.Discover();
    for n := 0 to |fetches|
      invariant coordinator.Valid() && discovery.Valid() && fresh(discovery)
      invariant discovery.coordinator == coordinator
      invariant forall k :: k in discovery.known <==> Has(coordinator.data, k)
    {
      var failed := coordinator.Update(fetches[n]);
      discovery.Discover();
    }
  }
}
