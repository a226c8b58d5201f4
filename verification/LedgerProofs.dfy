/** What the ledger guarantees for every history of polls. */
module LedgerProofs {
  import opened Text
  import opened OrderedDict
  import opened Ledger

  // ------------------------------------------------------------------- the merge

  /** Orders as the validation lets them in: each identity once, no negative energy, a readable end. */
  ghost predicate GoodOrders(orders: Orders, iso: IsoParser) {
    && Distinct(orders)
    && forall i | 0 <= i < |orders| :: GoodRecord(orders[i].1, iso)
  }

  predicate GoodRecord(r: Record, iso: IsoParser) {
    r.energyWh >= 0 && iso(r.ended).Some?
  }

  lemma GoodByKey(orders: Orders, iso: IsoParser)
    requires Distinct(orders)
    ensures GoodOrders(orders, iso) <==> forall k | Has(orders, k) :: GoodRecord(At(orders, k), iso)
  {
    forall i | 0 <= i < |orders| ensures Has(orders, orders[i].0) && At(orders, orders[i].0) == orders[i].1 {
      AtIs(orders, i);
    }
  }

  lemma {:induction false} CollectIsGood(rows: seq<Row>, serial: string, iso: IsoParser)
    ensures Collect(rows, serial, iso).Some? ==> GoodOrders(Collect(rows, serial, iso).value, iso)
    decreases |rows|
  {
    if rows != [] && Collect(rows, serial, iso).Some? {
      CollectIsGood(rows[..|rows| - 1], serial, iso);
      var updates := Collect(rows[..|rows| - 1], serial, iso).value;
      match ParseRow(rows[|rows| - 1], serial, iso)
      case Completed(key, record) =>
        PutWorks(updates, key, record);
        GoodByKey(updates, iso);
        GoodByKey(Put(updates, key, record), iso);
      case _ =>
    }
  }

  /** An order once stored is never dropped, and every completed row of the response is in with its own values. */
  lemma MergeKeepsOrders(previous: Orders, rows: seq<Row>, serial: string, iso: IsoParser)
    requires GoodOrders(previous, iso) && MergeOrders(previous, rows, serial, iso).Some?
    ensures var merged := MergeOrders(previous, rows, serial, iso).value;
      && GoodOrders(merged, iso)
      && (forall k | Has(previous, k) :: Has(merged, k))
  {
    var updates := Collect(rows, serial, iso).value;
    CollectIsGood(rows, serial, iso);
    PutAllWorks(previous, updates);
    GoodByKey(previous, iso);
    GoodByKey(updates, iso);
    GoodByKey(PutAll(previous, updates), iso);
  }

  lemma {:induction false} CollectHoldsRows(rows: seq<Row>, serial: string, iso: IsoParser, i: nat)
    requires Collect(rows, serial, iso).Some? && i < |rows|
    ensures var p := ParseRow(rows[i], serial, iso);
      && p != Invalid
      && (p.Completed? ==>
            Has(Collect(rows, serial, iso).value, p.key) && At(Collect(rows, serial, iso).value, p.key) == p.record)
    decreases |rows|
  {
    hide Put, Has, At, ParseRow;
    var n := |rows| - 1;
    var updates := Collect(rows[..n], serial, iso).value;
    match ParseRow(rows[n], serial, iso) {
      case Completed(key, record) => PutWorks(updates, key, record);
      case _ =>
    }
    if i < n {
      CollectHoldsRows(rows[..n], serial, iso, i);
    }
  }

  lemma {:induction false} CollectOnlyRows(rows: seq<Row>, serial: string, iso: IsoParser, key: Digest)
    requires Collect(rows, serial, iso).Some? && Has(Collect(rows, serial, iso).value, key)
    ensures exists i | 0 <= i < |rows| ::
      ParseRow(rows[i], serial, iso) == Completed(key, At(Collect(rows, serial, iso).value, key))
    decreases |rows|
  {
    if rows != [] {
      var n := |rows| - 1;
      var updates := Collect(rows[..n], serial, iso).value;
      var last := ParseRow(rows[n], serial, iso);
      if last.Completed? && last.key == key {
        PutWorks(updates, key, last.record);
        assert ParseRow(rows[n], serial, iso) == Completed(key, last.record);
      } else {
        if last.Completed? {
          PutWorks(updates, last.key, last.record);
        }
        CollectOnlyRows(rows[..n], serial, iso, key);
        var i :| 0 <= i < n && ParseRow(rows[..n][i], serial, iso) == Completed(key, At(updates, key));
        assert rows[i] == rows[..n][i];
      }
    }
  }

  /** A merged order is the response's when the response completes it, and the stored one otherwise. */
  lemma MergeIsUpsert(previous: Orders, rows: seq<Row>, serial: string, iso: IsoParser, key: Digest)
    requires MergeOrders(previous, rows, serial, iso).Some?
    ensures var merged := MergeOrders(previous, rows, serial, iso).value;
      && (forall i | 0 <= i < |rows| && ParseRow(rows[i], serial, iso).Completed?
          && ParseRow(rows[i], serial, iso).key == key ::
            Has(merged, key) && At(merged, key) == ParseRow(rows[i], serial, iso).record)
      && ((forall i | 0 <= i < |rows| :: !(ParseRow(rows[i], serial, iso).Completed?
                                           && ParseRow(rows[i], serial, iso).key == key)) ==>
            Has(merged, key) == Has(previous, key) && (Has(previous, key) ==> At(merged, key) == At(previous, key)))
  {
    var updates := Collect(rows, serial, iso).value;
    CollectIsGood(rows, serial, iso);
    PutAllWorks(previous, updates);
    forall i | 0 <= i < |rows| && ParseRow(rows[i], serial, iso).Completed? && ParseRow(rows[i], serial, iso).key == key
      ensures Has(updates, key) && At(updates, key) == ParseRow(rows[i], serial, iso).record
    {
      CollectHoldsRows(rows, serial, iso, i);
    }
    if Has(updates, key) {
      CollectOnlyRows(rows, serial, iso, key);
    }
  }

  /** Orders are kept by identity, not by poll: the same response twice is the same ledger. */
  lemma MergeTwice(previous: Orders, rows: seq<Row>, serial: string, iso: IsoParser)
    requires MergeOrders(previous, rows, serial, iso).Some?
    ensures var once := MergeOrders(previous, rows, serial, iso).value;
      MergeOrders(once, rows, serial, iso) == Some(once)
  {
    CollectIsGood(rows, serial, iso);
    PutAllTwice(previous, Collect(rows, serial, iso).value);
  }

  // ------------------------------------------------------------------ the totals

  lemma {:induction false} InsertKeepsSums(r: Record, sorted: seq<Record>, iso: IsoParser, v: Digest)
    ensures EnergyOf(Insert(r, sorted, iso), v) == EnergyOf([r] + sorted, v)
    ensures SessionsOf(Insert(r, sorted, iso), v) == SessionsOf([r] + sorted, v)
    decreases |sorted|
  {
    assert ([r] + sorted)[1..] == sorted;
    if sorted != [] && EndedAt(sorted[0], iso) < EndedAt(r, iso) {
      InsertKeepsSums(r, sorted[1..], iso, v);
      assert ([r] + sorted[1..])[1..] == sorted[1..];
      assert Insert(r, sorted, iso)[1..] == Insert(r, sorted[1..], iso);
    }
  }

  lemma {:induction false} InsertKeepsTotal(r: Record, sorted: seq<Record>, iso: IsoParser)
    ensures TotalEnergy(Insert(r, sorted, iso)) == r.energyWh + TotalEnergy(sorted)
    decreases |sorted|
  {
    if sorted != [] && EndedAt(sorted[0], iso) < EndedAt(r, iso) {
      InsertKeepsTotal(r, sorted[1..], iso);
      assert Insert(r, sorted, iso)[1..] == Insert(r, sorted[1..], iso);
    } else {
      assert ([r] + sorted)[1..] == sorted;
    }
  }

  /** Sorting by end moves no energy between vehicles and loses none. */
  lemma {:induction false} ByEndKeepsSums(orders: Orders, iso: IsoParser, v: Digest)
    ensures EnergyOf(ByEnd(orders, iso), v) == EnergyOf(Records(orders), v)
    ensures SessionsOf(ByEnd(orders, iso), v) == SessionsOf(Records(orders), v)
    ensures TotalEnergy(ByEnd(orders, iso)) == TotalEnergy(Records(orders))
    decreases |orders|
  {
    if orders == [] {
      assert Records(orders) == [];
    } else {
      hide Insert;
      var r, rest := orders[0].1, ByEnd(orders[1..], iso);
      ByEndKeepsSums(orders[1..], iso, v);
      InsertKeepsSums(r, rest, iso, v);
      InsertKeepsTotal(r, rest, iso);
      assert ([r] + rest)[1..] == rest;
      assert Records(orders)[1..] == Records(orders[1..]);
    }
  }

  lemma {:induction false} SumsOfAppend(records: seq<Record>, r: Record, v: Digest)
    ensures EnergyOf(records + [r], v) == EnergyOf(records, v) + (if r.vehicle == v then r.energyWh else 0)
    ensures SessionsOf(records + [r], v) == SessionsOf(records, v) + (if r.vehicle == v then 1 else 0)
    ensures TotalEnergy(records + [r]) == TotalEnergy(records) + r.energyWh
    decreases |records|
  {
    if records == [] {
      assert records + [r] == [r];
    } else {
      assert (records + [r])[1..] == records[1..] + [r];
      SumsOfAppend(records[1..], r, v);
    }
  }

  lemma AddRecordSums(totals: Totals, r: Record, v: Digest)
    requires Distinct(totals)
    ensures var t := AddRecord(totals, r);
      && Distinct(t)
      && EnergyIn(t, v) == EnergyIn(totals, v) + (if r.vehicle == v then r.energyWh else 0)
      && SessionsIn(t, v) == SessionsIn(totals, v) + (if r.vehicle == v then 1 else 0)
      && (Has(t, v) <==> Has(totals, v) || r.vehicle == v)
  {
    hide Put, Has, At, Distinct;
    var t := if Has(totals, r.vehicle) then At(totals, r.vehicle) else Total(0, 0, "", r.other);
    PutWorks(totals, r.vehicle,
             Total(t.energyWh + r.energyWh, t.sessions + 1, if r.name == "" then t.name else r.name, t.other));
  }

  /** Grouping adds up exactly the records of each vehicle, and lists no other vehicle. */
  lemma {:induction false} AddAllIsPerVehicle(records: seq<Record>, v: Digest)
    ensures var t := AddAll(records);
      && Distinct(t)
      && EnergyIn(t, v) == EnergyOf(records, v) && SessionsIn(t, v) == SessionsOf(records, v)
      && (Has(t, v) <==> SessionsOf(records, v) > 0)
    decreases |records|
  {
    if records != [] {
      hide AddRecord, EnergyOf, SessionsOf, EnergyIn, SessionsIn, Has, Distinct;
      var n := |records| - 1;
      AddAllIsPerVehicle(records[..n], v);
      assert records[..n] + [records[n]] == records;
      SumsOfAppend(records[..n], records[n], v);
      AddRecordSums(AddAll(records[..n]), records[n], v);
    }
  }

  lemma {:induction false} ZeroedKeys(data: Totals)
    requires Distinct(data)
    ensures Distinct(Zeroed(data))
    ensures forall k :: Has(Zeroed(data), k) == Has(data, k)
    ensures forall k :: EnergyIn(Zeroed(data), k) == 0 && SessionsIn(Zeroed(data), k) == 0
  {
    var z := Zeroed(data);
    forall k ensures Has(z, k) == Has(data, k)
      && (Has(z, k) ==> z[Find(z, k)].1.energyWh == 0 && z[Find(z, k)].1.sessions == 0) {
      HasIff(z, k);
      HasIff(data, k);
      if Has(data, k) {
        assert z[Find(data, k)].0 == k;
      }
      if Has(z, k) {
        assert data[Find(z, k)].0 == k;
      }
    }
  }

  lemma {:induction false} AmountsNotNegative(records: seq<Record>, v: Digest, iso: IsoParser)
    requires forall i | 0 <= i < |records| :: GoodRecord(records[i], iso)
    ensures EnergyOf(records, v) >= 0
  {
    if records != [] {
      AmountsNotNegative(records[1..], v, iso);
    }
  }

  /**
   The published totals are, vehicle by vehicle, what the orders add up to; no vehicle
   already published is dropped, and none is listed without an order unless it was there.
   */
  lemma NewTotalsAreRight(data: Totals, orders: Orders, iso: IsoParser, v: Digest)
    requires Distinct(data)
    ensures var t := NewTotals(data, orders, iso);
      && Distinct(t)
      && EnergyIn(t, v) == EnergyOf(Records(orders), v) && SessionsIn(t, v) == SessionsOf(Records(orders), v)
      && (Has(t, v) <==> Has(data, v) || SessionsOf(Records(orders), v) > 0)
      && (SessionsOf(Records(orders), v) > 0 ==>
            Has(VehicleTotals(orders, iso), v) && At(t, v) == At(VehicleTotals(orders, iso), v))
      && (Has(data, v) && SessionsOf(Records(orders), v) == 0 ==>
            At(t, v) == At(data, v).(energyWh := 0, sessions := 0))
  {
    var computed := VehicleTotals(orders, iso);
    ZeroedKeys(data);
    if Has(data, v) {
      ZeroedAt(data, v);
    }
    ByEndKeepsSums(orders, iso, v);
    AddAllIsPerVehicle(ByEnd(orders, iso), v);
    PutAllWorks(Zeroed(data), computed);
  }

  /** A ledger passes the check of a restore exactly when its totals are the sums of its orders. */
  lemma ValidIffTotalsRight(saved: Saved, iso: IsoParser)
    requires Distinct(saved.orders) && Distinct(saved.vehicles)
    ensures ValidSavedLedger(saved, iso) <==>
      && GoodOrders(saved.orders, iso)
      && forall v ::
           && EnergyIn(saved.vehicles, v) == EnergyOf(Records(saved.orders), v)
           && SessionsIn(saved.vehicles, v) == SessionsOf(Records(saved.orders), v)
           && (SessionsOf(Records(saved.orders), v) > 0 ==> Has(saved.vehicles, v))
  {
    var computed := VehicleTotals(saved.orders, iso);
    AddAllIsPerVehicle(ByEnd(saved.orders, iso), Digest(""));
    forall v
      ensures EnergyIn(computed, v) == EnergyOf(Records(saved.orders), v)
      ensures SessionsIn(computed, v) == SessionsOf(Records(saved.orders), v)
      ensures Has(computed, v) <==> SessionsOf(Records(saved.orders), v) > 0
    {
      ByEndKeepsSums(saved.orders, iso, v);
      AddAllIsPerVehicle(ByEnd(saved.orders, iso), v);
    }
    if ValidSavedLedger(saved, iso) {
      ValidLedgerByKey(saved, computed, iso);
    }
    if GoodOrders(saved.orders, iso) && (forall v ::
           && EnergyIn(saved.vehicles, v) == EnergyOf(Records(saved.orders), v)
           && SessionsIn(saved.vehicles, v) == SessionsOf(Records(saved.orders), v)
           && (SessionsOf(Records(saved.orders), v) > 0 ==> Has(saved.vehicles, v))) {
      LedgerByKeyIsValid(saved, computed, iso);
    }
  }

  lemma ValidLedgerByKey(saved: Saved, computed: Totals, iso: IsoParser)
    requires Distinct(saved.vehicles) && Distinct(computed) && computed == VehicleTotals(saved.orders, iso)
    requires ValidSavedLedger(saved, iso)
    ensures forall v ::
      && EnergyIn(saved.vehicles, v) == EnergyIn(computed, v)
        && SessionsIn(saved.vehicles, v) == SessionsIn(computed, v)
      && (Has(computed, v) ==> Has(saved.vehicles, v))
  {
    forall v
      ensures Has(computed, v) ==> Has(saved.vehicles, v)
      ensures EnergyIn(saved.vehicles, v) == EnergyIn(computed, v)
        && SessionsIn(saved.vehicles, v) == SessionsIn(computed, v)
    {
      if Has(computed, v) {
        assert computed[Find(computed, v)].0 == v;
      }
      if Has(saved.vehicles, v) {
        assert saved.vehicles[Find(saved.vehicles, v)].0 == v;
      }
    }
  }

  lemma LedgerByKeyIsValid(saved: Saved, computed: Totals, iso: IsoParser)
    requires GoodOrders(saved.orders, iso) && Distinct(saved.vehicles) && Distinct(computed)
    requires computed == VehicleTotals(saved.orders, iso)
    requires forall v ::
      && EnergyIn(saved.vehicles, v) == EnergyOf(Records(saved.orders), v) == EnergyIn(computed, v)
      && SessionsIn(saved.vehicles, v) == SessionsOf(Records(saved.orders), v) == SessionsIn(computed, v)
      && (Has(computed, v) ==> Has(saved.vehicles, v))
    ensures ValidSavedLedger(saved, iso)
  {
    forall i | 0 <= i < |computed| ensures Has(saved.vehicles, computed[i].0) {
      AtIs(computed, i);
    }
    forall i | 0 <= i < |saved.vehicles|
      ensures var (key, total) := saved.vehicles[i];
        && total.energyWh >= 0 && total.sessions >= 0
        && total.energyWh == EnergyIn(computed, key) && total.sessions == SessionsIn(computed, key)
    {
      AtIs(saved.vehicles, i);
      AmountsNotNegative(Records(saved.orders), saved.vehicles[i].0, iso);
    }
  }

  /** What an update saves is accepted by the next restore. */
  lemma SavedLedgerIsAccepted(data: Totals, orders: Orders, iso: IsoParser)
    requires Distinct(data) && GoodOrders(orders, iso)
    ensures ValidSavedLedger(Saved(orders, NewTotals(data, orders, iso)), iso)
  {
    var saved := Saved(orders, NewTotals(data, orders, iso));
    NewTotalsAreRight(data, orders, iso, Digest(""));
    forall v
      ensures EnergyIn(saved.vehicles, v) == EnergyOf(Records(orders), v)
      ensures SessionsIn(saved.vehicles, v) == SessionsOf(Records(orders), v)
      ensures SessionsOf(Records(orders), v) > 0 ==> Has(saved.vehicles, v)
    {
      NewTotalsAreRight(data, orders, iso, v);
    }
    ValidIffTotalsRight(saved, iso);
  }

  /** The same poll again finds nothing to save: neither orders nor totals move. */
  lemma SamePollAgain(data: Totals, previous: Orders, rows: seq<Row>, serial: string, iso: IsoParser)
    requires Distinct(data) && MergeOrders(previous, rows, serial, iso).Some?
    ensures var orders := MergeOrders(previous, rows, serial, iso).value;
      var totals := NewTotals(data, orders, iso);
      && MergeOrders(orders, rows, serial, iso) == Some(orders)
      && Same(NewTotals(totals, orders, iso), totals)
  {
    MergeTwice(previous, rows, serial, iso);
    var orders := MergeOrders(previous, rows, serial, iso).value;
    TotalsAgain(data, orders, iso);
  }

  lemma ZeroedAt(data: Totals, k: Digest)
    requires Distinct(data) && Has(data, k)
    ensures Has(Zeroed(data), k) && At(Zeroed(data), k) == At(data, k).(energyWh := 0, sessions := 0)
  {
    ZeroedKeys(data);
    assert Zeroed(data)[Find(data, k)].0 == k;
    AtIs(Zeroed(data), Find(data, k));
  }

  lemma TotalsAgain(data: Totals, orders: Orders, iso: IsoParser)
    requires Distinct(data)
    ensures Same(NewTotals(NewTotals(data, orders, iso), orders, iso), NewTotals(data, orders, iso))
  {
    var computed := VehicleTotals(orders, iso);
    var once := NewTotals(data, orders, iso);
    var twice := NewTotals(once, orders, iso);
    AddAllIsPerVehicle(ByEnd(orders, iso), Digest(""));
    ZeroedKeys(data);
    PutAllWorks(Zeroed(data), computed);
    ZeroedKeys(once);
    PutAllWorks(Zeroed(once), computed);
    forall k ensures Has(twice, k) == Has(once, k) && (Has(once, k) ==> At(twice, k) == At(once, k)) {
      if Has(once, k) && !Has(computed, k) {
        ZeroedAt(once, k);
        ZeroedAt(data, k);
      }
    }
    SameIff(twice, once);
  }

  // ----------------------------------------------------------------- conservation

  lemma {:induction false} PublishedUpdate(totals: Totals, i: nat, entry: (Digest, Total))
    requires i < |totals|
    ensures PublishedEnergy(totals[i := entry]) == PublishedEnergy(totals) - totals[i].1.energyWh + entry.1.energyWh
    decreases |totals|
  {
    if i > 0 {
      assert totals[i := entry][1..] == totals[1..][i - 1 := entry];
      PublishedUpdate(totals[1..], i - 1, entry);
    } else {
      assert totals[i := entry][1..] == totals[1..];
    }
  }

  lemma {:induction false} PublishedAppend(totals: Totals, entry: (Digest, Total))
    ensures PublishedEnergy(totals + [entry]) == PublishedEnergy(totals) + entry.1.energyWh
    decreases |totals|
  {
    if totals == [] {
      assert totals + [entry] == [entry];
    } else {
      assert (totals + [entry])[1..] == totals[1..] + [entry];
      PublishedAppend(totals[1..], entry);
    }
  }

  lemma PublishedPut(totals: Totals, v: Digest, t: Total)
    ensures PublishedEnergy(Put(totals, v, t)) == PublishedEnergy(totals) - EnergyIn(totals, v) + t.energyWh
  {
    if Has(totals, v) {
      PublishedUpdate(totals, Find(totals, v), (v, t));
    } else {
      PublishedAppend(totals, (v, t));
    }
  }

  lemma {:induction false} AddAllConserves(records: seq<Record>)
    ensures PublishedEnergy(AddAll(records)) == TotalEnergy(records)
    decreases |records|
  {
    if records != [] {
      var n := |records| - 1;
      var before, r := AddAll(records[..n]), records[n];
      AddAllConserves(records[..n]);
      assert records[..n] + [r] == records;
      SumsOfAppend(records[..n], r, r.vehicle);
      var t := if Has(before, r.vehicle) then At(before, r.vehicle) else Total(0, 0, "", r.other);
      PublishedPut(before, r.vehicle,
                   Total(t.energyWh + r.energyWh, t.sessions + 1, if r.name == "" then t.name else r.name, t.other));
    }
  }

  lemma {:induction false} PutAllConserves(totals: Totals, more: Totals)
    requires Distinct(more) && forall k | Has(more, k) :: EnergyIn(totals, k) == 0
    ensures PublishedEnergy(PutAll(totals, more)) == PublishedEnergy(totals) + PublishedEnergy(more)
    decreases |more|
  {
    if more != [] {
      hide Put;
      var (v, t) := more[0];
      AtIs(more, 0);
      HasTail(more, v);
      PublishedPut(totals, v, t);
      PutWorks(totals, v, t);
      forall k | Has(more[1..], k) ensures EnergyIn(Put(totals, v, t), k) == 0 {
        HasTail(more, k);
      }
      PutAllConserves(Put(totals, v, t), more[1..]);
    }
  }

  lemma {:induction false} ZeroedPublishesNothing(data: Totals)
    ensures PublishedEnergy(Zeroed(data)) == 0
  {
    if data != [] {
      ZeroedPublishesNothing(data[1..]);
      assert Zeroed(data)[1..] == Zeroed(data[1..]);
    }
  }

  /** Conservation: the vehicles together show the energy of all orders, nothing more and nothing less. */
  lemma EnergyIsConserved(data: Totals, orders: Orders, iso: IsoParser)
    requires Distinct(data)
    ensures PublishedEnergy(NewTotals(data, orders, iso)) == TotalEnergy(Records(orders))
  {
    var records := ByEnd(orders, iso);
    ByEndKeepsSums(orders, iso, Digest(""));
    AddAllIsPerVehicle(records, Digest(""));
    AddAllConserves(records);
    ZeroedKeys(data);
    ZeroedPublishesNothing(data);
    PutAllConserves(Zeroed(data), AddAll(records));
  }

  // ------------------------------------------------------------------ the names

  predicate Sorted(records: seq<Record>, iso: IsoParser) {
    forall i, j | 0 <= i < j < |records| :: EndedAt(records[i], iso) <= EndedAt(records[j], iso)
  }

  lemma {:induction false} InsertSorts(r: Record, sorted: seq<Record>, iso: IsoParser)
    requires Sorted(sorted, iso)
    ensures Sorted(Insert(r, sorted, iso), iso)
    ensures forall x :: x in Insert(r, sorted, iso) <==> x == r || x in sorted
    decreases |sorted|
  {
    if sorted != [] && EndedAt(sorted[0], iso) < EndedAt(r, iso) {
      var rest := Insert(r, sorted[1..], iso);
      InsertSorts(r, sorted[1..], iso);
      assert sorted == [sorted[0]] + sorted[1..];
      forall i | 0 <= i < |rest| ensures EndedAt(sorted[0], iso) <= EndedAt(rest[i], iso) {
        assert rest[i] in rest;
      }
    }
  }

  lemma {:induction false} ByEndSorts(orders: Orders, iso: IsoParser)
    ensures Sorted(ByEnd(orders, iso), iso)
    ensures forall x :: x in ByEnd(orders, iso) <==> x in Records(orders)
    decreases |orders|
  {
    if orders != [] {
      ByEndSorts(orders[1..], iso);
      InsertSorts(orders[0].1, ByEnd(orders[1..], iso), iso);
      assert Records(orders) == [orders[0].1] + Records(orders[1..]);
    }
  }

  predicate Named(r: Record, v: Digest) {
    r.vehicle == v && r.name != ""
  }

  /** No record of the vehicle has a name, or this is the name of the latest one, the last in order among equal ends. */
  ghost predicate Names(records: seq<Record>, v: Digest, name: string, iso: IsoParser) {
    if name == "" then forall i | 0 <= i < |records| :: !Named(records[i], v)
    else exists i: nat :: i < |records| && records[i].name == name && IsLatest(records, v, i, iso)
  }

  ghost predicate IsLatest(records: seq<Record>, v: Digest, i: nat, iso: IsoParser)
    requires i < |records|
  {
    && Named(records[i], v)
    && forall j | 0 <= j < |records| && Named(records[j], v) ::
         || EndedAt(records[j], iso) < EndedAt(records[i], iso)
         || (EndedAt(records[j], iso) == EndedAt(records[i], iso) && j <= i)
  }

  function NameIn(totals: Totals, v: Digest): string {
    if Has(totals, v) then At(totals, v).name else ""
  }

  lemma AddRecordName(totals: Totals, r: Record, v: Digest)
    ensures NameIn(AddRecord(totals, r), v) == if Named(r, v) then r.name else NameIn(totals, v)
  {
    hide Put, Has, At;
    var t := if Has(totals, r.vehicle) then At(totals, r.vehicle) else Total(0, 0, "", r.other);
    PutWorks(totals, r.vehicle,
             Total(t.energyWh + r.energyWh, t.sessions + 1, if r.name == "" then t.name else r.name, t.other));
  }

  /** The last record in a sequence that names the vehicle. */
  function LastNamed(records: seq<Record>, v: Digest): (r: Option<Record>)
    ensures r.Some? ==> r.value in records && Named(r.value, v)
    ensures r.None? ==> forall i | 0 <= i < |records| :: !Named(records[i], v)
  {
    if records == [] then None
    else
      var rest := LastNamed(records[1..], v);
      if rest.Some? then rest else if Named(records[0], v) then Some(records[0]) else None
  }

  lemma {:induction false} LastNamedAppend(records: seq<Record>, r: Record, v: Digest)
    ensures LastNamed(records + [r], v) == if Named(r, v) then Some(r) else LastNamed(records, v)
  {
    if records == [] {
      assert records + [r] == [r];
    } else {
      assert (records + [r])[1..] == records[1..] + [r];
      LastNamedAppend(records[1..], r, v);
    }
  }

  /** Grouping names a vehicle by the last record that has a name. */
  lemma {:induction false} AddAllNames(records: seq<Record>, v: Digest)
    ensures NameIn(AddAll(records), v) == if LastNamed(records, v).Some? then LastNamed(records, v).value.name else ""
    decreases |records|
  {
    hide AddRecord, LastNamed;
    if records != [] {
      var n := |records| - 1;
      AddAllNames(records[..n], v);
      assert records[..n] + [records[n]] == records;
      AddRecordName(AddAll(records[..n]), records[n], v);
      LastNamedAppend(records[..n], records[n], v);
    }
  }

  /** A record put in its place is the last named one exactly when all named ones ended earlier. */
  lemma {:induction false} LastAfterInsert(r: Record, sorted: seq<Record>, v: Digest, iso: IsoParser)
    requires Sorted(sorted, iso)
    ensures var last := LastNamed(sorted, v);
      LastNamed(Insert(r, sorted, iso), v) ==
        if !Named(r, v) || (last.Some? && EndedAt(last.value, iso) >= EndedAt(r, iso)) then last else Some(r)
    decreases |sorted|
  {
    if sorted == [] {
      assert Insert(r, sorted, iso)[1..] == [];
    } else if EndedAt(sorted[0], iso) < EndedAt(r, iso) {
      LastAfterInsert(r, sorted[1..], v, iso);
      assert Insert(r, sorted, iso)[1..] == Insert(r, sorted[1..], iso);
    } else {
      assert Insert(r, sorted, iso)[1..] == sorted;
      var last := LastNamed(sorted, v);
      if last.Some? {
        var i :| 0 <= i < |sorted| && sorted[i] == last.value;
      }
    }
  }

  lemma LatestOfMore(r: Record, records: seq<Record>, i: nat, v: Digest, iso: IsoParser)
    requires i < |records| && IsLatest(records, v, i, iso)
    ensures var all := [r] + records;
      if Named(r, v) && EndedAt(r, iso) > EndedAt(records[i], iso) then IsLatest(all, v, 0, iso)
      else IsLatest(all, v, i + 1, iso)
  {
  }

  ghost predicate IsLast(orders: Orders, v: Digest, last: Option<Record>, iso: IsoParser) {
    match last
    case None => forall i | 0 <= i < |orders| :: !Named(orders[i].1, v)
    case Some(r) => exists i: nat :: i < |orders| && orders[i].1 == r && IsLatest(Records(orders), v, i, iso)
  }

  lemma {:induction false} LastIsLatest(orders: Orders, v: Digest, iso: IsoParser)
    ensures IsLast(orders, v, LastNamed(ByEnd(orders, iso), v), iso)
    decreases |orders|
  {
    if orders != [] {
      hide IsLatest, Insert, LastNamed, ByEnd;
      var r, rest := orders[0].1, orders[1..];
      LastIsLatest(rest, v, iso);
      ByEndSorts(rest, iso);
      LastAfterInsert(r, ByEnd(rest, iso), v, iso);
      ByEndOfMore(orders, iso);
      assert Records(orders) == [r] + Records(rest);
      var last := LastNamed(ByEnd(rest, iso), v);
      if last.Some? {
        var i: nat :| i < |rest| && rest[i].1 == last.value && IsLatest(Records(rest), v, i, iso);
        LatestOfMore(r, Records(rest), i, v, iso);
        assert orders[i + 1] == rest[i];
      } else if Named(r, v) {
        OnlyNamed(r, Records(rest), v, iso);
      }
    } else {
      assert ByEnd(orders, iso) == [];
    }
  }

  lemma ByEndOfMore(orders: Orders, iso: IsoParser)
    requires orders != []
    ensures ByEnd(orders, iso) == Insert(orders[0].1, ByEnd(orders[1..], iso), iso)
  {
  }

  lemma OnlyNamed(r: Record, records: seq<Record>, v: Digest, iso: IsoParser)
    requires Named(r, v) && forall i | 0 <= i < |records| :: !Named(records[i], v)
    ensures IsLatest([r] + records, v, 0, iso)
  {
  }

  /** The first record of a vehicle. */
  ghost predicate IsFirst(records: seq<Record>, v: Digest, i: nat) {
    i < |records| && records[i].vehicle == v && forall j | 0 <= j < i :: records[j].vehicle != v
  }

  lemma AddRecordFlag(totals: Totals, r: Record, v: Digest)
    ensures Has(AddRecord(totals, r), v) <==> Has(totals, v) || r.vehicle == v
    ensures (Has(AddRecord(totals, r), v) ==>
      At(AddRecord(totals, r), v).other == if Has(totals, v) then At(totals, v).other else r.other)
  {
    hide Put, Has, At;
    var t := if Has(totals, r.vehicle) then At(totals, r.vehicle) else Total(0, 0, "", r.other);
    PutWorks(totals, r.vehicle,
             Total(t.energyWh + r.energyWh, t.sessions + 1, if r.name == "" then t.name else r.name, t.other));
  }

  lemma {:induction false} AddAllFlags(records: seq<Record>, v: Digest)
    requires Has(AddAll(records), v)
    ensures exists i: nat :: IsFirst(records, v, i) && At(AddAll(records), v).other == records[i].other
    decreases |records|
  {
    if records != [] {
      hide AddRecord, Has, At;
      var n := |records| - 1;
      AddRecordFlag(AddAll(records[..n]), records[n], v);
      if Has(AddAll(records[..n]), v) {
        AddAllFlags(records[..n], v);
        var i: nat :| IsFirst(records[..n], v, i) && At(AddAll(records[..n]), v).other == records[..n][i].other;
        assert IsFirst(records, v, i);
      } else {
        forall j | 0 <= j < n ensures records[j].vehicle != v {
          if records[j].vehicle == v {
            SessionsFound(records[..n], j);
            AddAllIsPerVehicle(records[..n], v);
          }
        }
        assert IsFirst(records, v, n);
      }
    } else {
      HasIff(AddAll(records), v);
    }
  }

  lemma {:induction false} SessionsFound(records: seq<Record>, j: nat)
    requires j < |records|
    ensures SessionsOf(records, records[j].vehicle) > 0
  {
    if j > 0 {
      SessionsFound(records[1..], j - 1);
    }
  }

  /** Whether a vehicle is the one without a profile is what its earliest order says. */
  lemma EarliestOrderFlags(orders: Orders, iso: IsoParser, v: Digest)
    requires Has(VehicleTotals(orders, iso), v)
    ensures exists r | r in Records(orders) && r.vehicle == v ::
      && At(VehicleTotals(orders, iso), v).other == r.other
      && forall q | q in Records(orders) && q.vehicle == v :: EndedAt(r, iso) <= EndedAt(q, iso)
  {
    var records := ByEnd(orders, iso);
    ByEndSorts(orders, iso);
    AddAllFlags(records, v);
    var i: nat :| IsFirst(records, v, i) && At(AddAll(records), v).other == records[i].other;
    assert records[i] in Records(orders);
    forall q | q in Records(orders) && q.vehicle == v ensures EndedAt(records[i], iso) <= EndedAt(q, iso) {
      var j :| 0 <= j < |records| && records[j] == q;
    }
  }

  /** A vehicle is shown under the name its latest named order carries. */
  lemma LatestOrderNames(orders: Orders, iso: IsoParser, v: Digest)
    ensures Names(Records(orders), v, NameIn(VehicleTotals(orders, iso), v), iso)
  {
    AddAllNames(ByEnd(orders, iso), v);
    LastIsLatest(orders, v, iso);
    hide IsLatest;
    var last := LastNamed(ByEnd(orders, iso), v);
    if last.Some? {
      var i: nat :| i < |orders| && orders[i].1 == last.value && IsLatest(Records(orders), v, i, iso);
      assert Records(orders)[i] == last.value;
    }
  }
}
