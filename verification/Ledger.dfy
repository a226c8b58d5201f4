/** Completed charging orders: validation, merge by identity, and the totals per vehicle. */
module Ledger {
  import opened Text
  import opened OrderedDict

  /** A field of a cloud response; `Other` is a list or an object. */
  datatype Value = Null | Flag(b: bool) | Int(n: int) | Num(r: real) | Str(s: string) | Other

  /** The fields of one order row; a missing field is null. */
  datatype Row = Row(sn: Value, endTime: Value, orderId: Value, vehicleId: Value, chargedEnergy: Value,
                     vehicleName: Value)

  /** A SHA-256 digest, as a constructor that never collides. */
  datatype Digest = Digest(of: string)

  datatype Record = Record(vehicle: Digest, other: bool, name: string, energyWh: int, ended: string)

  datatype Total = Total(energyWh: int, sessions: int, name: string, other: bool)

  type Orders = Dict<Digest, Record>
  type Totals = Dict<Digest, Total>

  /** `datetime.fromisoformat` with a missing offset read as UTC: the instant, or nothing for a bad text. */
  type IsoParser = string -> Option<int>

  // ------------------------------------------------------------------ validation

  function SignedDecimal(n: int): string {
    if n < 0 then "-" + Decimal(-n) else Decimal(n)
  }

  /** An order or vehicle id as text: a whole number or a text that is not blank. */
  function IdText(v: Value): Option<string> {
    match v
    case Int(n) => Some(SignedDecimal(n))
    case Str(s) => if Strip(s) == "" then None else Some(s)
    case _ => None
  }

  /** A row without an end is not completed yet. */
  predicate NotEnded(v: Value) {
    v == Null || v == Str("") || v == Int(0) || v == Str("0") || v == Flag(false) || v == Num(0.0)
  }

  function Clip(s: string): string {
    if |s| <= 200 then s else s[..200]
  }

  datatype RowResult = Invalid | Skipped | Completed(key: Digest, record: Record)

  function ParseRow(row: Row, serial: string, iso: IsoParser): RowResult {
    if row.sn != Str(serial) then Invalid
    else if NotEnded(row.endTime) then Skipped
    else if !row.endTime.Str? || iso(row.endTime.s).None? then Invalid
    else
      match (IdText(row.orderId), IdText(row.vehicleId))
      case (Some(order), Some(vehicle)) =>
        if !row.chargedEnergy.Int? || row.chargedEnergy.n < 0 then Invalid
        else if !row.vehicleName.Null? && !row.vehicleName.Str? then Invalid
        else
          var name := if row.vehicleName.Str? then row.vehicleName.s else "";
          Completed(Digest(order),
                    Record(Digest(vehicle), vehicle == "-1", Clip(Strip(name)), row.chargedEnergy.n, row.endTime.s))
      case _ => Invalid
  }

  /** An id is a whole number in decimal or a text with something in it. */
  lemma IdTextIff(v: Value, t: string)
    ensures IdText(v) == Some(t) <==>
      || (v.Int? && v.n >= 0 && t == Decimal(v.n)) || (v.Int? && v.n < 0 && t == "-" + Decimal(-v.n))
      || (v == Str(t) && !AllSpace(t))
  {
    StripsAwayIff(t);
  }

  predicate CompletedAs(row: Row, serial: string, iso: IsoParser, order: string, vehicle: string, r: Record) {
    && row.sn == Str(serial)
    && row.endTime == Str(r.ended) && r.ended != "" && r.ended != "0" && iso(r.ended).Some?
    && IdText(row.orderId) == Some(order)
    && IdText(row.vehicleId) == Some(vehicle) && r.vehicle == Digest(vehicle) && (r.other <==> vehicle == "-1")
    && row.chargedEnergy == Int(r.energyWh) && r.energyWh >= 0
    && if row.vehicleName.Str? then
         var name := Strip(row.vehicleName.s);
         |r.name| == (if |name| < 200 then |name| else 200) && r.name <= name
       else row.vehicleName.Null? && r.name == ""
  }

  /** Which rows are taken in, and which of their fields becomes what; which rows are passed over. */
  lemma RowIff(row: Row, serial: string, iso: IsoParser, order: string, vehicle: string, r: Record)
    ensures CompletedAs(row, serial, iso, order, vehicle, r) ==>
      ParseRow(row, serial, iso) == Completed(Digest(order), r)
    ensures ParseRow(row, serial, iso) == Completed(Digest(order), r) ==>
      CompletedAs(row, serial, iso, order, r.vehicle.of, r)
    ensures ParseRow(row, serial, iso) == Skipped <==>
      && row.sn == Str(serial)
      && (row.endTime in [Null, Str(""), Str("0"), Int(0), Flag(false), Num(0.0)])
  {
    StripEmpty();
  }

  lemma StripEmpty()
    ensures Strip("") == ""
  {
  }

  /** The validated updates of a response; nothing when any row is invalid or two rows disagree. */
  function Collect(rows: seq<Row>, serial: string, iso: IsoParser): Option<Orders>
    decreases |rows|
  {
    if rows == [] then Some([])
    else
      match Collect(rows[..|rows| - 1], serial, iso)
      case None => None
      case Some(updates) =>
        match ParseRow(rows[|rows| - 1], serial, iso)
        case Invalid => None
        case Skipped => Some(updates)
        case Completed(key, record) =>
          if Has(updates, key) && At(updates, key) != record then None else Some(Put(updates, key, record))
  }

  /** Upsert the completed orders; `None` is the ValueError of an invalid response. */
  function MergeOrders(previous: Orders, rows: seq<Row>, serial: string, iso: IsoParser): Option<Orders> {
    match Collect(rows, serial, iso)
    case None => None
    case Some(updates) => Some(PutAll(previous, updates))
  }

  // ---------------------------------------------------------------------- totals

  function EndedAt(r: Record, iso: IsoParser): int {
    match iso(r.ended)
    case None => 0
    case Some(t) => t
  }

  /** Behind every record that ended no later: a stable sort, one record at a time. */
  function Insert(r: Record, sorted: seq<Record>, iso: IsoParser): seq<Record> {
    if sorted == [] then [r]
    else if EndedAt(sorted[0], iso) < EndedAt(r, iso) then [sorted[0]] + Insert(r, sorted[1..], iso)
    else [r] + sorted
  }

  /** The records of a ledger, earliest end first, ledger order among equal ends. */
  function ByEnd(orders: Orders, iso: IsoParser): seq<Record> {
    if orders == [] then [] else Insert(orders[0].1, ByEnd(orders[1..], iso), iso)
  }

  function AddRecord(totals: Totals, r: Record): Totals {
    var t := if Has(totals, r.vehicle) then At(totals, r.vehicle) else Total(0, 0, "", r.other);
    Put(totals, r.vehicle,
        Total(t.energyWh + r.energyWh, t.sessions + 1, if r.name == "" then t.name else r.name, t.other))
  }

  function AddAll(records: seq<Record>): Totals {
    if records == [] then [] else AddRecord(AddAll(records[..|records| - 1]), records[|records| - 1])
  }

  /** Group by vehicle identity; the latest completed record that carries a name gives it. */
  function VehicleTotals(orders: Orders, iso: IsoParser): Totals {
    AddAll(ByEnd(orders, iso))
  }

  function Zeroed(data: Totals): (z: Totals)
    ensures |z| == |data|
    ensures forall i | 0 <= i < |data| :: z[i] == (data[i].0, data[i].1.(energyWh := 0, sessions := 0))
  {
    if data == [] then [] else [(data[0].0, data[0].1.(energyWh := 0, sessions := 0))] + Zeroed(data[1..])
  }

  /** The totals published after a merge: vehicles without an order keep their entry, at zero. */
  function NewTotals(data: Totals, orders: Orders, iso: IsoParser): Totals {
    PutAll(Zeroed(data), VehicleTotals(orders, iso))
  }

  // ------------------------------------------------------------ the stored ledger

  datatype Saved = Saved(orders: Orders, vehicles: Totals)

  /** What is checked before a stored ledger is used. */
  predicate ValidSavedLedger(saved: Saved, iso: IsoParser) {
    && (forall i | 0 <= i < |saved.orders| ::
          saved.orders[i].1.energyWh >= 0 && iso(saved.orders[i].1.ended).Some?)
    && (forall i | 0 <= i < |saved.vehicles| ::
          saved.vehicles[i].1.energyWh >= 0 && saved.vehicles[i].1.sessions >= 0)
    && var computed := VehicleTotals(saved.orders, iso);
       && (forall i | 0 <= i < |computed| :: Has(saved.vehicles, computed[i].0))
       && (forall i | 0 <= i < |saved.vehicles| ::
             var (key, total) := saved.vehicles[i];
             && total.energyWh == (if Has(computed, key) then At(computed, key).energyWh else 0)
             && total.sessions == (if Has(computed, key) then At(computed, key).sessions else 0))
  }

  // -------------------------------------------------- the reference for the totals

  /** Energy of one vehicle, added up over the records themselves. */
  function EnergyOf(records: seq<Record>, vehicle: Digest): int {
    if records == [] then 0
    else (if records[0].vehicle == vehicle then records[0].energyWh else 0) + EnergyOf(records[1..], vehicle)
  }

  function SessionsOf(records: seq<Record>, vehicle: Digest): nat {
    if records == [] then 0
    else (if records[0].vehicle == vehicle then 1 else 0) + SessionsOf(records[1..], vehicle)
  }

  function TotalEnergy(records: seq<Record>): int {
    if records == [] then 0 else records[0].energyWh + TotalEnergy(records[1..])
  }

  /** What a table of totals says about one vehicle; none is zero. */
  function EnergyIn(totals: Totals, vehicle: Digest): int {
    if Has(totals, vehicle) then At(totals, vehicle).energyWh else 0
  }

  function SessionsIn(totals: Totals, vehicle: Digest): int {
    if Has(totals, vehicle) then At(totals, vehicle).sessions else 0
  }

  function PublishedEnergy(totals: Totals): int {
    if totals == [] then 0 else totals[0].1.energyWh + PublishedEnergy(totals[1..])
  }

  function Records(orders: Orders): (r: seq<Record>)
    ensures |r| == |orders| && forall i | 0 <= i < |orders| :: r[i] == orders[i].1
  {
    seq(|orders|, i requires 0 <= i < |orders| => orders[i].1)
  }
}
