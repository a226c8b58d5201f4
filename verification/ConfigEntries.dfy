/**
 The config entries of the integration and the flows that rewrite them: setup, options,
 reconfigure, and the unload and reload discipline around a local probe. Each flow is
 one completed run; what the user, the cloud and the device answer are its arguments.
 */
module ConfigEntries {
  import opened Text

  datatype Mode = Standard | Enhanced | Local

  datatype AuthMethod = Developer | App

  datatype DeviceType = PowerOcean | PowerStream | EnhancedOnly | OtherType | UnknownType

  /** A listed device: its serial, its product name and the type recorded for it. */
  datatype Device = Device(sn: string, product: string, deviceType: DeviceType)

  /** The device type by product name and serial, a table of the integration. */
  type Classifier = (string, string) -> DeviceType

  datatype Address = Address(host: string, port: int, unitId: int)

  const CAPTURE_SECONDS := 24 * 60 * 60
  const POWEROCEAN_NAME := "PowerOcean"
  const CLOUD_ENTRY_TITLE := "EcoFlow Energy"

  /** One entry; an absent key of the original's data is `None`. */
  datatype Entry = Entry(uniqueId: Option<string>, title: string, mode: Mode, devices: seq<Device>,
                         auth: Option<AuthMethod>, accessKey: Option<string>, secretKey: Option<string>,
                         email: Option<string>, password: Option<string>, userId: Option<string>,
                         address: Option<Address>, capture: Option<bool>, captureUntil: Option<int>,
                         vehicleEnergy: Option<bool>)

  type Entries = map<nat, Entry>

  /** How a flow step ends: a form with an error, an abort, done, or an exception that passes through. */
  datatype Result = Form(error: string) | Abort(reason: string) | Finished | Raises

  /** What the identity read of a device brought, or the exception that cut it short. */
  datatype Probe = Found(serial: string) | ProbeError(reason: string) | Raised

  /** What the account steps collected. */
  datatype SignIn = Keys(access: string, secret: string) | Account(email: string, password: string, userId: string)

  // ------------------------------------------------------------------ predicates

  predicate SerialShape(s: string) {
    |s| == 16 && forall i | 0 <= i < 16 :: 'A' <= s[i] <= 'Z' || '0' <= s[i] <= '9'
  }

  predicate ValidHost(host: string) {
    host != "" && forall i | 0 <= i < |host| :: host[i] != '/' && !IsSpace(host[i])
  }

  predicate Known(devices: seq<Device>, serial: string) {
    exists i | 0 <= i < |devices| :: devices[i].sn == serial
  }

  predicate Lists(e: Entry, serial: string) {
    Known(e.devices, serial)
  }

  /** Another entry already carries the serial; `localOnly` looks at Local entries alone. */
  predicate SerialElsewhere(entries: Entries, serial: string, exclude: Option<nat>, localOnly: bool) {
    exists id | id in entries ::
      exclude != Some(id) && (localOnly ==> entries[id].mode == Local) && Lists(entries[id], serial)
  }

  predicate AccountKnown(entries: Entries, signIn: SignIn, exclude: Option<nat>) {
    exists id | id in entries :: exclude != Some(id) &&
      match signIn
      case Keys(access, _) => entries[id].accessKey == Some(access)
      case Account(email, _, _) => entries[id].email == Some(email)
  }

  // ------------------------------------------ the same three questions, by entry and device

  /** No entry but perhaps this one signs in with the same access key or email. */
  ghost predicate AccountFree(entries: Entries, signIn: SignIn, exclude: Option<nat>) {
    forall id | id in entries && exclude != Some(id) ::
      match signIn
      case Keys(access, _) => entries[id].accessKey != Some(access)
      case Account(email, _, _) => entries[id].email != Some(email)
  }

  /** No entry but perhaps this one lists a device of this serial. */
  ghost predicate SerialFree(entries: Entries, serial: string, exclude: Option<nat>) {
    forall id, d | id in entries && exclude != Some(id) && d in entries[id].devices :: d.sn != serial
  }

  /** No Local entry but perhaps this one lists a device of these serials. */
  ghost predicate FreeForCloud(entries: Entries, selected: seq<string>, exclude: Option<nat>) {
    forall id, d | id in entries && exclude != Some(id) && entries[id].mode == Local && d in entries[id].devices ::
      d.sn !in selected
  }

  lemma AccountFreeIff(entries: Entries, signIn: SignIn, exclude: Option<nat>)
    ensures AccountFree(entries, signIn, exclude) <==> !AccountKnown(entries, signIn, exclude)
  {
  }

  lemma SerialFreeIff(entries: Entries, serial: string, exclude: Option<nat>)
    ensures SerialFree(entries, serial, exclude) <==> !SerialElsewhere(entries, serial, exclude, false)
  {
  }

  lemma FreeForCloudIff(entries: Entries, selected: seq<string>, exclude: Option<nat>)
    ensures FreeForCloud(entries, selected, exclude) <==>
      forall i | 0 <= i < |selected| :: !SerialElsewhere(entries, selected[i], exclude, true)
  {
    if FreeForCloud(entries, selected, exclude) {
      forall i | 0 <= i < |selected| ensures !SerialElsewhere(entries, selected[i], exclude, true) {
      }
    } else {
      var id, d :| id in entries && exclude != Some(id) && entries[id].mode == Local && d in entries[id].devices
        && d.sn in selected;
      var i :| 0 <= i < |selected| && selected[i] == d.sn;
      assert Lists(entries[id], d.sn);
      assert SerialElsewhere(entries, selected[i], exclude, true);
    }
  }

  predicate SinglePowerOcean(e: Entry) {
    |e.devices| == 1 && e.devices[0].deviceType == PowerOcean
  }

  predicate HasType(devices: seq<Device>, selected: seq<string>, t: DeviceType) {
    exists i | 0 <= i < |devices| :: devices[i].sn in selected && devices[i].deviceType == t
  }

  function LocalTitle(serial: string): string {
    "EcoFlow Energy Local (" + (if |serial| <= 4 then serial else serial[..4]) + ")"
  }

  /** Only a title one of the setup steps would have given is replaced. */
  function Retitle(title: string, serial: string, toLocal: bool): string {
    if title == CLOUD_ENTRY_TITLE || title == LocalTitle(serial)
    then if toLocal then LocalTitle(serial) else CLOUD_ENTRY_TITLE
    else title
  }

  function ModeOf(signIn: SignIn): Mode {
    if signIn.Account? then Enhanced else Standard
  }

  /** The devices of the list with this serial, or with one of these serials. */
  function Pick(devices: seq<Device>, selected: seq<string>): (picked: seq<Device>)
    ensures forall d | d in picked :: d.sn in selected && d in devices
    ensures forall d | d in devices && d.sn in selected :: d in picked
  {
    if devices == [] then []
    else (if devices[0].sn in selected then [devices[0]] else []) + Pick(devices[1..], selected)
  }

  /** The devices picked keep the order they are listed in, each as often as it is listed. */
  lemma {:induction false} PickInOrder(devices: seq<Device>, d: Device, selected: seq<string>)
    ensures Pick(devices + [d], selected) == Pick(devices, selected) + if d.sn in selected then [d] else []
    decreases |devices|
  {
    if devices == [] {
      assert devices + [d] == [d] && [d][1..] == [];
    } else {
      assert (devices + [d])[1..] == devices[1..] + [d];
      PickInOrder(devices[1..], d, selected);
    }
  }

  /** The first listed device of this serial. */
  function FirstWith(devices: seq<Device>, serial: string): Device
    requires exists d :: d in devices && d.sn == serial
  {
    if devices[0].sn == serial then devices[0]
    else
      assert exists d :: d in devices[1..] && d.sn == serial by {
        var d :| d in devices && d.sn == serial;
      }
      FirstWith(devices[1..], serial)
  }

  lemma {:induction false} PickOne(devices: seq<Device>, serial: string)
    ensures Pick(devices, [serial]) == [] <==> forall d | d in devices :: d.sn != serial
    ensures Pick(devices, [serial]) != [] ==> Pick(devices, [serial])[0] == FirstWith(devices, serial)
  {
    if devices != [] {
      PickOne(devices[1..], serial);
    }
  }

  lemma HasTypeIff(devices: seq<Device>, selected: seq<string>, t: DeviceType)
    ensures HasType(devices, selected, t) <==> exists d | d in devices && d.sn in selected :: d.deviceType == t
  {
  }

  /** The device a dictionary by serial would hold: the last one listed. */
  function LastWith(devices: seq<Device>, serial: string): (r: Option<Device>)
    ensures r.Some? <==> Known(devices, serial)
    ensures r.Some? ==> r.value in devices && r.value.sn == serial
  {
    if devices == [] then None
    else if devices[|devices| - 1].sn == serial then Some(devices[|devices| - 1])
    else LastWith(devices[..|devices| - 1], serial)
  }

  function CloudEntry(title: string, devices: seq<Device>, signIn: SignIn): Entry {
    match signIn
    case Keys(access, secret) =>
      Entry(None, title, Standard, devices, Some(Developer), Some(access), Some(secret), None, None, None, None, None,
            None, None)
    case Account(email, password, userId) =>
      Entry(None, title, Enhanced, devices, Some(App), None, None, Some(email), Some(password), Some(userId),
            None, None, None, None)
  }

  function LocalEntry(title: string, device: Device, address: Address): Entry {
    Entry(Some(device.sn), title, Local, [device], None, None, None, None, None, None, Some(address), None, None, None)
  }

  /** The entry pointed at the local address of its one device, written from scratch. */
  function Localized(e: Entry, address: Address): Entry
    requires e.devices != []
  {
    LocalEntry(Retitle(e.title, e.devices[0].sn, true), e.devices[0], address)
  }

  /** The entry of its one device on an account, written from scratch. */
  function Clouded(e: Entry, devices: seq<Device>, signIn: SignIn): Entry
    requires e.devices != []
  {
    CloudEntry(Retitle(e.title, e.devices[0].sn, false), Pick(devices, [e.devices[0].sn]), signIn)
  }

  // ------------------------------------------------------------------- the invariant

  /** A Local entry holds one device under its own serial, and no credentials of any kind. */
  predicate ProperLocal(e: Entry) {
    && |e.devices| == 1
    && e.uniqueId == Some(e.devices[0].sn)
    && SerialShape(e.devices[0].sn)
    && e.address.Some? && ValidHost(e.address.value.host)
    && e.auth.None? && e.accessKey.None? && e.secretKey.None?
    && e.email.None? && e.password.None? && e.userId.None?
  }

  predicate Complete(signIn: SignIn) {
    match signIn
    case Keys(access, secret) => access != "" && secret != ""
    case Account(email, password, userId) => email != "" && password != "" && userId != ""
  }

  /** The option holds a text that is not empty. */
  predicate Given(s: Option<string>) {
    s.Some? && s.value != ""
  }

  /** The entry carries what its mode signs in with, and in Standard nothing of an account. */
  predicate CanSignIn(e: Entry) {
    match e.mode
    case Local => true
    case Enhanced =>
      && Given(e.email) && Given(e.password) && Given(e.userId)
      && (e.auth == Some(App) || (e.auth == Some(Developer) && Given(e.accessKey) && Given(e.secretKey)))
    case Standard =>
      && e.auth == Some(Developer) && Given(e.accessKey) && Given(e.secretKey)
      && e.email.None? && e.password.None? && e.userId.None?
  }

  /** A cloud entry has no unique id and no address, can sign in, and never keeps half a pair of keys. */
  predicate ProperCloud(e: Entry) {
    && e.uniqueId.None? && e.address.None?
    && CanSignIn(e) && (Given(e.accessKey) ==> Given(e.secretKey))
  }

  predicate Proper(e: Entry) {
    if e.mode == Local then ProperLocal(e) else ProperCloud(e)
  }

  /** The device of a Local entry is in no other entry. */
  ghost predicate Exclusive(entries: Entries) {
    forall id, other | id in entries && other in entries && id != other && entries[id].mode == Local ::
      |entries[id].devices| > 0 ==> !Lists(entries[other], entries[id].devices[0].sn)
  }

  ghost predicate Consistent(entries: Entries) {
    && (forall id | id in entries :: Proper(entries[id]))
    && Exclusive(entries)
  }

  /** No two entries share a unique id. */
  lemma UniqueIdsAreUnique(entries: Entries, a: nat, b: nat)
    requires Consistent(entries) && a in entries && b in entries && a != b
    requires entries[a].uniqueId.Some?
    ensures entries[b].uniqueId != entries[a].uniqueId
  {
  }

  /** Writing a Local entry whose serial is nowhere else keeps the entries consistent. */
  lemma LocalIsConsistent(entries: Entries, id: nat, e: Entry)
    requires Consistent(entries) && e.mode == Local && ProperLocal(e)
    requires !SerialElsewhere(entries, e.devices[0].sn, Some(id), false)
    ensures Consistent(entries[id := e])
  {
  }

  /** Writing a cloud entry none of whose devices a Local entry holds keeps the entries consistent. */
  lemma CloudIsConsistent(entries: Entries, id: nat, e: Entry)
    requires Consistent(entries) && e.mode != Local && ProperCloud(e)
    requires forall i | 0 <= i < |e.devices| :: !SerialElsewhere(entries, e.devices[i].sn, Some(id), true)
    ensures Consistent(entries[id := e])
  {
  }

  // --------------------------------------------------------------------- options

  /** The capture flag and its deadline as a save writes them; `None` leaves both alone. */
  function ApplyCapture(e: Entry, wanted: Option<bool>, now: int): Entry {
    match wanted
    case None => e
    case Some(false) => CaptureOff(e)
    case Some(true) =>
      e.(capture := Some(true),
         captureUntil := if WindowOpen(e, now) then e.captureUntil else Some(now + CAPTURE_SECONDS))
  }

  function CaptureOff(e: Entry): Entry {
    e.(capture := Some(false), captureUntil := None)
  }

  predicate WindowOpen(e: Entry, now: int) {
    e.capture == Some(true) && e.captureUntil.Some? && now < e.captureUntil.value
  }

  /** The stored or freshly listed device of each selected serial. */
  function SelectedDevices(stored: seq<Device>, listed: seq<Device>, selected: seq<string>): (r: seq<Device>)
    ensures forall i | 0 <= i < |r| :: r[i].sn in selected
  {
    if selected == [] then []
    else
      Chosen(stored, listed, selected[0]) + SelectedDevices(stored, listed, selected[1..])
  }

  /** The device a save keeps for one selected serial, if any. */
  function Chosen(stored: seq<Device>, listed: seq<Device>, serial: string): (r: seq<Device>)
    ensures forall d | d in r :: d.sn == serial && (d in listed || (d in stored && !Known(listed, serial)))
    ensures Known(r, serial) <==> Known(listed, serial) || Known(stored, serial)
  {
    var fromApi, fromEntry := LastWith(listed, serial), LastWith(stored, serial);
    var found := if fromApi.Some? then [fromApi.value] else if fromEntry.Some? then [fromEntry.value] else [];
    assert found != [] ==> found[0].sn == serial;
    found
  }

  function NonEmptyOr(s: string, before: Option<string>): Option<string> {
    if s != "" then Some(s) else if before.Some? then before else Some("")
  }

  /** The type of a selected serial as setup would see it: classified again, else as recorded. */
  function StoredType(classify: Classifier, known: seq<Device>, sn: string): DeviceType {
    var mine := LastWith(known, sn);
    var d := if mine.None? then Device(sn, "", OtherType) else mine.value;
    var t := classify(d.product, sn);
    if t == UnknownType then d.deviceType else t
  }

  predicate Selects(classify: Classifier, known: seq<Device>, selected: seq<string>, t: DeviceType) {
    exists i | 0 <= i < |selected| :: StoredType(classify, known, selected[i]) == t
  }

  /** A save that turns Enhanced on asks for the account first. */
  predicate AsksAccount(e: Entry, mode: Mode) {
    mode == Enhanced && e.mode != Enhanced
  }

  /** A save into Standard asks for the keys when the entry stores none. */
  predicate AsksKeys(e: Entry, mode: Mode) {
    mode != Enhanced && (e.accessKey.None? || e.accessKey.value == "")
  }

  /** The follow-up step, when one is needed, collected everything it asks for. */
  predicate Answered(e: Entry, mode: Mode, signIn: Option<SignIn>) {
    && (AsksAccount(e, mode) ==> signIn.Some? && signIn.value.Account? && Complete(signIn.value))
    && (AsksKeys(e, mode) ==> signIn.Some? && signIn.value.Keys? && Complete(signIn.value))
  }

  predicate AccountGiven(signIn: Option<SignIn>) {
    match signIn
    case Some(Account(email, password, userId)) => email != "" && password != "" && userId != ""
    case _ => false
  }

  predicate KeysGiven(signIn: Option<SignIn>) {
    match signIn
    case Some(Keys(access, secret)) => access != "" && secret != ""
    case _ => false
  }

  /** The type of a serial goes by its last listing: the table's for that product, else the one recorded there. */
  lemma TypeOfSerial(classify: Classifier, known: seq<Device>, i: nat, sn: string)
    ensures i < |known| && known[i].sn == sn && (forall j | i < j < |known| :: known[j].sn != sn) ==>
      StoredType(classify, known, sn) ==
        if classify(known[i].product, sn) != UnknownType then classify(known[i].product, sn) else known[i].deviceType
    ensures (forall d | d in known :: d.sn != sn) ==>
      StoredType(classify, known, sn) == if classify("", sn) != UnknownType then classify("", sn) else OtherType
  {
    if i < |known| && known[i].sn == sn && forall j | i < j < |known| :: known[j].sn != sn {
      LastListing(known, i);
    }
  }

  lemma {:induction false} LastListing(devices: seq<Device>, i: nat)
    requires i < |devices| && forall j | i < j < |devices| :: devices[j].sn != devices[i].sn
    ensures LastWith(devices, devices[i].sn) == Some(devices[i])
    decreases |devices|
  {
    if i < |devices| - 1 {
      LastListing(devices[..|devices| - 1], i);
    }
  }

  lemma SelectsIff(classify: Classifier, known: seq<Device>, selected: seq<string>, t: DeviceType)
    ensures Selects(classify, known, selected, t) <==>
      exists sn | sn in selected :: StoredType(classify, known, sn) == t
  {
    hide StoredType;
    if sn :| sn in selected && StoredType(classify, known, sn) == t {
      var i :| 0 <= i < |selected| && selected[i] == sn;
    }
  }

  /** The entry an options save writes. */
  function SavedEntry(e: Entry, mode: Mode, devices: seq<Device>, signIn: Option<SignIn>, wanted: Option<bool>,
                      vehicle: Option<bool>, now: int): Entry
    requires Answered(e, mode, signIn)
  {
    var f := ApplyCapture(e, wanted, now).(mode := mode, devices := devices,
      vehicleEnergy := Some(mode == Enhanced
                            && (if vehicle.Some? then vehicle.value else e.vehicleEnergy == Some(true))));
    if mode == Enhanced then
      var a := if AsksAccount(e, mode) then signIn.value else Account("", "", "");
      f.(auth := Some(App), email := NonEmptyOr(a.email, e.email), password := NonEmptyOr(a.password, e.password),
         userId := NonEmptyOr(a.userId, e.userId))
    else
      var k := if AsksKeys(e, mode) then signIn.value else Keys("", "");
      f.(auth := Some(Developer),
         accessKey := if k.access != "" then Some(k.access) else e.accessKey,
         secretKey := if k.secret != "" then Some(k.secret) else e.secretKey,
         email := None, password := None, userId := None)
  }

  function TextOr(s: Option<string>): string {
    if s.Some? then s.value else ""
  }

  function StoredKeys(e: Entry): SignIn {
    Keys(TextOr(e.accessKey), TextOr(e.secretKey))
  }

  function StoredAccount(e: Entry): SignIn {
    Account(TextOr(e.email), TextOr(e.password), TextOr(e.userId))
  }

  /** What a cloud entry signs in with when it is set up. */
  function SignInOf(e: Entry): SignIn {
    if e.mode == Enhanced then StoredAccount(e) else StoredKeys(e)
  }

  /** New credentials for the sign-in an entry uses; the empty ones were not asked for. */
  function WithCredentials(e: Entry, keys: SignIn, account: SignIn): Entry
    requires keys.Keys? && account.Account?
  {
    var withKeys := e.(accessKey := Some(keys.access), secretKey := Some(keys.secret));
    var withAccount := e.(email := Some(account.email), password := Some(account.password),
                          userId := Some(account.userId));
    if e.auth == Some(App) then withAccount
    else if e.mode == Enhanced then
      withKeys.(email := Some(account.email), password := Some(account.password), userId := Some(account.userId))
    else withKeys
  }

  /** The sign-in steps an entry goes through for new credentials collected all they ask for. */
  predicate Renewed(e: Entry, keys: SignIn, account: SignIn) {
    && keys.Keys? && account.Account?
    && (e.auth != Some(App) ==> Complete(keys))
    && (e.auth == Some(App) || e.mode == Enhanced ==> Complete(account))
  }

  // ------------------------------------------------------------------- the flows

  /** The reload a changed entry brings about by itself: one, if it carries the listener. */
  function ListenerReload(before: Entries, after: Entries, id: nat, listening: set<nat>): seq<nat>
    requires id in before && id in after
  {
    if before[id] != after[id] && id in listening then [id] else []
  }

  /** What a local address leads to, in the order the steps look at it; `expected` is the entry's own serial. */
  function LocalVerdict(entries: Entries, exclude: Option<nat>, expected: Option<string>, address: Address,
                        probe: Probe): Result {
    if !ValidHost(address.host) then Form("invalid_host")
    else match probe
      case ProbeError(reason) => Form(reason)
      case Raised => Raises
      case Found(serial) =>
        if expected.Some? && serial != expected.value then Form("serial_mismatch")
        else if SerialElsewhere(entries, serial, exclude, false) then Abort("already_configured")
        else Finished
  }

  /** A local step is finished exactly for a host that is one, the expected serial and a device no other entry lists. */
  lemma LocalVerdictIff(entries: Entries, exclude: Option<nat>, expected: Option<string>, address: Address,
                        probe: Probe)
    ensures var r, valid := LocalVerdict(entries, exclude, expected, address, probe), ValidHost(address.host);
      && (r == Form("invalid_host") <==> !valid || probe == ProbeError("invalid_host"))
      && (r == Finished <==>
            && address.host != "" && (forall c | c in address.host :: c != '/' && !IsSpace(c))
            && probe.Found? && (expected.Some? ==> probe.serial == expected.value)
            && SerialFree(entries, probe.serial, exclude))
      && (r.Abort? <==>
            valid && probe.Found? && (expected.Some? ==> probe.serial == expected.value)
            && !SerialFree(entries, probe.serial, exclude))
      && (valid && probe.ProbeError? ==> r == Form(probe.reason))
      && (valid && probe.Raised? ==> r == Raises)
      && (valid && probe.Found? && expected.Some? && probe.serial != expected.value ==> r == Form("serial_mismatch"))
  {
    if probe.Found? {
      SerialFreeIff(entries, probe.serial, exclude);
    }
    hide SerialElsewhere, SerialFree, IsSpace;
  }

  /** What a new account with its selection leads to. */
  ghost function CloudVerdict(entries: Entries, signIn: SignIn, devices: seq<Device>, selected: seq<string>): Result {
    if selected == [] then Form("no_devices")
    else if signIn.Account? && exists d | d in devices && d.sn in selected :: d.deviceType == PowerStream
      then Form("powerstream_requires_standard")
    else if signIn.Keys? && exists d | d in devices && d.sn in selected :: d.deviceType == EnhancedOnly
      then Form("device_requires_enhanced")
    else if !AccountFree(entries, signIn, None) then Abort("already_configured")
    else if !FreeForCloud(entries, selected, None) then Form("device_in_other_entry")
    else Finished
  }

  /** What an account leads to that a Local entry of this device is to be switched to. */
  ghost function SwitchVerdict(entries: Entries, id: nat, signIn: SignIn, devices: seq<Device>,
                               serial: string): Result {
    if forall d | d in devices :: d.sn != serial then Form("device_not_on_account")
    else if signIn.Keys? && FirstWith(devices, serial).deviceType == EnhancedOnly then Form("device_requires_enhanced")
    else if AccountFree(entries, signIn, Some(id)) && SerialFree(entries, serial, Some(id)) then Finished
    else Abort("already_configured")
  }

  lemma SwitchVerdictIs(entries: Entries, id: nat, signIn: SignIn, devices: seq<Device>, serial: string)
    ensures var mine := Pick(devices, [serial]);
      SwitchVerdict(entries, id, signIn, devices, serial) ==
        if mine == [] then Form("device_not_on_account")
        else if ModeOf(signIn) == Standard && mine[0].deviceType == EnhancedOnly then Form("device_requires_enhanced")
        else if AccountKnown(entries, signIn, Some(id)) || SerialElsewhere(entries, serial, Some(id), false)
          then Abort("already_configured")
        else Finished
  {
    PickOne(devices, serial);
    AccountFreeIff(entries, signIn, Some(id));
    SerialFreeIff(entries, serial, Some(id));
    hide AccountFree, AccountKnown, SerialFree, SerialElsewhere, Pick;
  }

  /** What a save of these options leads to. */
  ghost function OptionsVerdict(classify: Classifier, entries: Entries, id: nat, mode: Mode, selected: seq<string>,
                                listed: seq<Device>, signIn: Option<SignIn>): (r: Result)
    requires id in entries && mode != Local
    ensures r == Finished ==> Answered(entries[id], mode, signIn)
  {
    var e := entries[id];
    var known := if listed != [] then listed else e.devices;
    if e.mode == Local then Abort("local_use_reconfigure")
    else if selected == [] then Form("no_devices")
    else if !FreeForCloud(entries, selected, Some(id)) then Form("device_in_other_entry")
    else if mode == Enhanced && exists sn | sn in selected :: StoredType(classify, known, sn) == PowerStream
      then Form("powerstream_requires_standard")
    else if mode == Standard && exists sn | sn in selected :: StoredType(classify, known, sn) == EnhancedOnly
      then Form("device_requires_enhanced")
    else if mode == Enhanced && e.mode != Enhanced && !AccountGiven(signIn) then Form("enhanced_login_failed")
    else if mode == Standard && !Given(e.accessKey) && !KeysGiven(signIn) then Form("invalid_auth")
    else Finished
  }

  lemma OptionsVerdictIs(classify: Classifier, entries: Entries, id: nat, mode: Mode, selected: seq<string>,
                         listed: seq<Device>, signIn: Option<SignIn>)
    requires id in entries && mode != Local
    ensures var e := entries[id];
      var known := if listed != [] then listed else e.devices;
      OptionsVerdict(classify, entries, id, mode, selected, listed, signIn) ==
        if e.mode == Local then Abort("local_use_reconfigure")
        else if selected == [] then Form("no_devices")
        else if exists i | 0 <= i < |selected| :: SerialElsewhere(entries, selected[i], Some(id), true)
          then Form("device_in_other_entry")
        else if mode == Enhanced && Selects(classify, known, selected, PowerStream)
          then Form("powerstream_requires_standard")
        else if mode != Enhanced && Selects(classify, known, selected, EnhancedOnly)
          then Form("device_requires_enhanced")
        else if AsksAccount(e, mode) && !Answered(e, mode, signIn) then Form("enhanced_login_failed")
        else if AsksKeys(e, mode) && !Answered(e, mode, signIn) then Form("invalid_auth")
        else Finished
  {
    var known := if listed != [] then listed else entries[id].devices;
    FreeForCloudIff(entries, selected, Some(id));
    SelectsIff(classify, known, selected, if mode == Enhanced then PowerStream else EnhancedOnly);
    hide FreeForCloud, SerialElsewhere, Selects, StoredType;
  }

  lemma FinishedIsFree(classify: Classifier, entries: Entries, id: nat, mode: Mode, selected: seq<string>,
                       listed: seq<Device>, signIn: Option<SignIn>)
    requires id in entries && mode != Local
    requires OptionsVerdict(classify, entries, id, mode, selected, listed, signIn) == Finished
    ensures entries[id].mode != Local && FreeForCloud(entries, selected, Some(id))
  {
  }

  /** A generated title shows the first four characters of a serial; an owner's title is never touched. */
  lemma TitleRules(title: string, serial: string, toLocal: bool)
    requires |serial| == 16
    ensures LocalTitle(serial) == "EcoFlow Energy Local (" + serial[..4] + ")"
    ensures (Retitle(title, serial, toLocal) ==
      if title != "EcoFlow Energy" && title != LocalTitle(serial) then title
      else if toLocal then LocalTitle(serial) else "EcoFlow Energy")
  {
  }

  /** One unload, with the number of reloads scheduled before it. */
  datatype Release = Release(id: nat, before: nat)

  /** A Local entry that is set up, or about to be, on another address than the one to be probed. */
  predicate Occupies(e: Entry, id: nat, running: set<nat>, address: Address) {
    && e.mode == Local && id in running && ValidHost(address.host)
    && match e.address
       case None => true
       case Some(own) => own.host != address.host || own.port != address.port
  }

  /** Each unload is answered by the very next reload, and no two by the same one. */
  predicate AllReloaded(released: seq<Release>, reloads: seq<nat>) {
    && (forall i | 0 <= i < |released| ::
          released[i].before < |reloads| && reloads[released[i].before] == released[i].id)
    && (forall i, j | 0 <= i < j < |released| :: released[i].before < released[j].before)
  }

  lemma NoReload(entries: Entries, id: nat, listening: set<nat>)
    requires id in entries
    ensures ListenerReload(entries, entries, id, listening) == []
  {
  }

  lemma ReleaseAnswered(released: seq<Release>, reloads: seq<nat>, id: nat)
    requires AllReloaded(released, reloads)
    ensures AllReloaded(released + [Release(id, |reloads|)], reloads + [id])
  {
  }

  lemma MoreReloads(released: seq<Release>, reloads: seq<nat>, after: seq<nat>)
    requires AllReloaded(released, reloads) && reloads <= after
    ensures AllReloaded(released, after)
  {
  }

  /** The entries of the integration with the part of Home Assistant that loads them. */
  class Registry {
    var entries: Entries
    /** Loaded entries: only these carry the listener that reloads on an update. */
    var listening: set<nat>
    /** Entries waiting to retry their setup. */
    var retrying: set<nat>
    /** Every reload scheduled so far. */
    var reloads: seq<nat>
    /** Every unload by a flow so far. */
    var released: seq<Release>
    /** Every unload asked of Home Assistant, refused ones included. */
    ghost var unloads: seq<nat>

    /** The entries are consistent, and the next reload scheduled after an unload by a flow is its own. */
    ghost predicate Valid()
      reads this
    {
      Consistent(entries) && AllReloaded(released, reloads)
    }

    constructor ()
      ensures Valid() && entries == map[] && reloads == [] && released == [] && unloads == []
    {
      entries, listening, retrying, reloads, released, unloads := map[], {}, {}, [], [], [];
    }

    /** Home Assistant's update: the listener of a loaded entry reloads it when something changed. */
    method UpdateEntry(id: nat, e: Entry) returns (changed: bool)
      requires id in entries
      modifies this`entries, this`reloads
      ensures entries == old(entries)[id := e]
      ensures changed <==> old(entries)[id] != e
      ensures reloads == old(reloads) + (if changed && id in listening then [id] else [])
      ensures reloads == old(reloads) + ListenerReload(old(entries), entries, id, listening)
    {
      changed := entries[id] != e;
      entries := entries[id := e];
      if changed && id in listening {
        reloads := reloads + [id];
      }
    }

    /** Apply a change and reload the entry exactly once, with or without a listener, changed or not. */
    method UpdateAndReload(id: nat, e: Entry)
      requires id in entries
      modifies this`entries, this`reloads
      ensures entries == old(entries)[id := e]
      ensures reloads == old(reloads) + [id]
    {
      if id !in listening {
        var changed := UpdateEntry(id, e);
        reloads := reloads + [id];
        return;
      }
      var changed := UpdateEntry(id, e);
      if !changed {
        reloads := reloads + [id];
      }
    }

    /** Unload an entry; Home Assistant may refuse. An unloaded entry has no listener. */
    method Unload(id: nat) returns (ok: bool)
      modifies this`listening, this`retrying, this`released, this`unloads
      ensures unloads == old(unloads) + [id]
      ensures released == old(released) + (if ok then [Release(id, |reloads|)] else [])
      ensures listening == old(listening) - (if ok then {id} else {})
      ensures retrying == old(retrying) - (if ok then {id} else {})
    {
      ok := *;
      unloads := unloads + [id];
      if ok {
        listening, retrying, released := listening - {id}, retrying - {id}, released + [Release(id, |reloads|)];
      }
    }

    /** Setup, Local: read the device and create its entry. */
    method SetupLocal(id: nat, address: Address, probe: Probe) returns (r: Result)
      requires Valid() && id !in entries
      requires probe.Found? ==> SerialShape(probe.serial)
      modifies this`entries
      ensures Valid()
      ensures r == LocalVerdict(old(entries), None, None, address, probe)
      ensures entries == if r == Finished
        then old(entries)[id := LocalEntry(LocalTitle(probe.serial),
                                           Device(probe.serial, POWEROCEAN_NAME, PowerOcean), address)]
        else old(entries)
      ensures r == Finished ==>
        && entries[id].mode == Local && entries[id].address == Some(address)
        && entries[id].devices == [Device(probe.serial, "PowerOcean", PowerOcean)]
    {
      if !ValidHost(address.host) {
        return Form("invalid_host");
      }
      match probe
      case ProbeError(reason) => return Form(reason);
      case Raised => return Raises;
      case Found(serial) =>
        if SerialElsewhere(entries, serial, None, false) {
          return Abort("already_configured");
        }
        var e := LocalEntry(LocalTitle(serial), Device(serial, POWEROCEAN_NAME, PowerOcean), address);
        LocalIsConsistent(entries, id, e);
        entries := entries[id := e];
        return Finished;
    }

    /** Setup, cloud: the device selection step. */
    method SetupCloud(id: nat, signIn: SignIn, devices: seq<Device>, selected: seq<string>) returns (r: Result)
      requires Valid() && id !in entries && Complete(signIn)
      modifies this`entries
      ensures Valid()
      ensures entries == if r == Finished
        then old(entries)[id := CloudEntry(CLOUD_ENTRY_TITLE, Pick(devices, selected), signIn)] else old(entries)
      // an account added twice ends as such, whatever its devices
      ensures r == CloudVerdict(old(entries), signIn, devices, selected)
    {
      HasTypeIff(devices, selected, if signIn.Account? then PowerStream else EnhancedOnly);
      AccountFreeIff(entries, signIn, None);
      FreeForCloudIff(entries, selected, None);
      hide AccountFree, AccountKnown, FreeForCloud, SerialElsewhere, HasType, Consistent;
      if selected == [] {
        return Form("no_devices");
      }
      if signIn.Account? && HasType(devices, selected, PowerStream) {
        return Form("powerstream_requires_standard");
      }
      if !signIn.Account? && HasType(devices, selected, EnhancedOnly) {
        return Form("device_requires_enhanced");
      }
      if AccountKnown(entries, signIn, None) {
        return Abort("already_configured");
      }
      if exists i | 0 <= i < |selected| :: SerialElsewhere(entries, selected[i], None, true) {
        return Form("device_in_other_entry");
      }
      var e := CloudEntry(CLOUD_ENTRY_TITLE, Pick(devices, selected), signIn);
      PickedIsFree(entries, id, e, selected);
      CloudIsConsistent(entries, id, e);
      entries := entries[id := e];
      return Finished;
    }

    /** Unload a running Local entry for a probe on a new address; an unchanged one is shared. */
    method ReleaseLocalConnection(id: nat, address: Address) returns (ok: bool)
      requires id in entries
      modifies this`listening, this`retrying, this`released, this`unloads
      ensures unloads == old(unloads) + (if Occupies(entries[id], id, old(listening) + old(retrying), address)
                                         then [id] else [])
      ensures released == old(released) + (if ok then [Release(id, |reloads|)] else [])
      ensures listening == old(listening) - (if ok then {id} else {})
      ensures retrying == old(retrying) - (if ok then {id} else {})
      ensures ok ==> entries[id].mode == Local && ValidHost(address.host)
      ensures ok ==> id in old(listening) || id in old(retrying)
      ensures ok && entries[id].address.Some? ==>
        (address.host, address.port) != (entries[id].address.value.host, entries[id].address.value.port)
    {
      var e := entries[id];
      if e.mode != Local || (id !in listening && id !in retrying) || !ValidHost(address.host)
        || (e.address.Some? && (address.host, address.port) == (e.address.value.host, e.address.value.port)) {
        return false;
      }
      ok := Unload(id);
    }

    /**
     Reconfigure onto a local address. Whatever happens after the entry was unloaded, one
     reload is scheduled for it; and a success reloads once in any case.
     */
    method ReconfigureLocal(id: nat, address: Address, probe: Probe) returns (r: Result, unloaded: bool)
      requires Valid() && id in entries
      requires entries[id].mode == Local || SinglePowerOcean(entries[id])
      requires probe.Found? ==> SerialShape(probe.serial)
      modifies this
      ensures Valid()
      ensures r == LocalVerdict(old(entries), Some(id), Some(old(entries)[id].devices[0].sn), address, probe)
      ensures entries == if r == Finished then old(entries)[id := Localized(old(entries)[id], address)]
        else old(entries)
      ensures r == Finished ==>
        && entries[id].mode == Local && entries[id].address == Some(address)
        && entries[id].devices == [old(entries)[id].devices[0]]
      ensures unloads == old(unloads) + (if Occupies(old(entries)[id], id, old(listening) + old(retrying), address)
                                         then [id] else [])
      ensures released == old(released) + (if unloaded then [Release(id, |old(reloads)|)] else [])
      ensures reloads == old(reloads) + (if unloaded || r == Finished then [id] else [])
      ensures listening == old(listening) - (if unloaded then {id} else {})
      ensures retrying == old(retrying) - (if unloaded then {id} else {})
      // only a running Local entry is unloaded, and only for another address
      ensures unloaded ==>
        && old(entries)[id].mode == Local && (id in old(listening) || id in old(retrying)) && ValidHost(address.host)
        && old(entries)[id].address.Some?
        && (address.host, address.port) != (old(entries)[id].address.value.host, old(entries)[id].address.value.port)
    {
      var device := entries[id].devices[0];
      assert entries[id].mode == Local ==> entries[id].address.Some?;
      MoreReloads(released, reloads, reloads + [id]);
      ReleaseAnswered(released, reloads, id);
      hide Consistent, SerialElsewhere, Retitle, LocalTitle, ValidHost, AllReloaded, Occupies;
      unloaded := ReleaseLocalConnection(id, address);
      if !ValidHost(address.host) {
        r := Form("invalid_host");
      } else {
        match probe
        case ProbeError(reason) =>
          r := Form(reason);
        case Raised =>
          r := Raises;
        case Found(serial) =>
          if serial != device.sn {
            r := Form("serial_mismatch");
          } else if SerialElsewhere(entries, serial, Some(id), false) {
            r := Abort("already_configured");
          } else {
            var e := LocalEntry(Retitle(entries[id].title, serial, true), device, address);
            ReconfiguredIsConsistent(entries, id, e.title, device, address);
            UpdateAndReload(id, e);
            return Finished, unloaded;
          }
      }
      if unloaded {
        reloads := reloads + [id];
      }
    }

    /** Reconfigure a Local entry back to the cloud, for its one device. */
    method SwitchToCloud(id: nat, signIn: SignIn, devices: seq<Device>) returns (r: Result)
      requires Valid() && id in entries && entries[id].mode == Local && Complete(signIn)
      modifies this`entries, this`reloads
      ensures Valid()
      ensures entries == if r == Finished
        then old(entries)[id := Clouded(old(entries)[id], devices, signIn)] else old(entries)
      ensures reloads == old(reloads) + (if r == Finished then [id] else [])
      ensures r == SwitchVerdict(old(entries), id, signIn, devices, old(entries)[id].devices[0].sn)
      ensures r == Finished ==> entries[id].uniqueId.None? && entries[id].address.None?
    {
      var serial := entries[id].devices[0].sn;
      SwitchVerdictIs(entries, id, signIn, devices, serial);
      hide SwitchVerdict, Consistent, SerialElsewhere, Retitle, LocalTitle, AccountKnown, Pick, AllReloaded;
      var mine := Pick(devices, [serial]);
      if mine == [] {
        return Form("device_not_on_account");
      }
      if ModeOf(signIn) == Standard && mine[0].deviceType == EnhancedOnly {
        return Form("device_requires_enhanced");
      }
      if AccountKnown(entries, signIn, Some(id)) || SerialElsewhere(entries, serial, Some(id), false) {
        return Abort("already_configured");
      }
      var e := CloudEntry(Retitle(entries[id].title, serial, false), mine, signIn);
      SwitchedIsConsistent(entries, id, e, devices, serial);
      UpdateAndReload(id, e);
      MoreReloads(released, old(reloads), reloads);
      return Finished;
    }

    /** A switch to Local and one back to the cloud: what becomes of a one-device cloud entry. */
    method ThereAndBack(id: nat, address: Address, probe: Probe, devices: seq<Device>, signIn: SignIn)
      returns (done: bool)
      requires Valid() && id in entries && entries[id].mode != Local && SinglePowerOcean(entries[id])
      requires probe.Found? ==> SerialShape(probe.serial)
      requires Complete(signIn)
      modifies this
      ensures Valid()
      ensures done ==> entries == old(entries)[id := Clouded(Localized(old(entries)[id], address), devices, signIn)]
    {
      ghost var before := entries;
      LocalizedIsLocal(entries[id], address);
      hide *;
      var there, unloaded := ReconfigureLocal(id, address, probe);
      if there != Finished {
        return false;
      }
      ghost var local := Localized(before[id], address);
      assert entries == before[id := local];
      WrittenTwice(before, id, local, Clouded(local, devices, signIn));
      var back := SwitchToCloud(id, signIn, devices);
      return back == Finished;
    }

    /** What stands against a save of these options, in the order the steps look at it. */
    method CheckOptions(classify: Classifier, id: nat, mode: Mode, selected: seq<string>, listed: seq<Device>,
                        signIn: Option<SignIn>)
      returns (r: Result)
      requires id in entries && mode != Local
      ensures r == OptionsVerdict(classify, entries, id, mode, selected, listed, signIn)
    {
      OptionsVerdictIs(classify, entries, id, mode, selected, listed, signIn);
      hide OptionsVerdict, Answered, AsksAccount, AsksKeys, Selects, SerialElsewhere;
      var e := entries[id];
      if e.mode == Local {
        return Abort("local_use_reconfigure");
      }
      var known := if listed != [] then listed else e.devices;
      if selected == [] {
        return Form("no_devices");
      }
      if exists i | 0 <= i < |selected| :: SerialElsewhere(entries, selected[i], Some(id), true) {
        return Form("device_in_other_entry");
      }
      if mode == Enhanced && Selects(classify, known, selected, PowerStream) {
        return Form("powerstream_requires_standard");
      }
      if mode != Enhanced && Selects(classify, known, selected, EnhancedOnly) {
        return Form("device_requires_enhanced");
      }
      if AsksAccount(e, mode) && !Answered(e, mode, signIn) {
        return Form("enhanced_login_failed");
      }
      if AsksKeys(e, mode) && !Answered(e, mode, signIn) {
        return Form("invalid_auth");
      }
      return Finished;
    }

    /** The options of a cloud entry, saved; `listed` is what the account lists, if it answered. */
    method SaveOptions(classify: Classifier, id: nat, mode: Mode, selected: seq<string>, listed: seq<Device>,
                       signIn: Option<SignIn>, wanted: Option<bool>, vehicle: Option<bool>, now: int)
      returns (r: Result)
      requires Valid() && id in entries && mode != Local
      modifies this`entries, this`reloads
      ensures Valid()
      ensures r == OptionsVerdict(classify, old(entries), id, mode, selected, listed, signIn)
      ensures entries == if r == Finished
        then old(entries)[id := SavedEntry(old(entries)[id], mode,
          SelectedDevices(old(entries)[id].devices, listed, selected), signIn, wanted, vehicle, now)]
        else old(entries)
      ensures reloads == old(reloads) + ListenerReload(old(entries), entries, id, old(listening))
    {
      FreeForCloudIff(entries, selected, Some(id));
      if OptionsVerdict(classify, entries, id, mode, selected, listed, signIn) == Finished {
        FinishedIsFree(classify, entries, id, mode, selected, listed, signIn);
      }
      hide OptionsVerdict, Answered, SelectedDevices, SavedEntry, Consistent, SerialElsewhere, FreeForCloud,
        ListenerReload, AllReloaded;
      r := CheckOptions(classify, id, mode, selected, listed, signIn);
      if r == Finished {
        var e := entries[id];
        var f := SavedEntry(e, mode, SelectedDevices(e.devices, listed, selected), signIn, wanted, vehicle, now);
        SavedIsConsistent(entries, id, mode, listed, selected, signIn, wanted, vehicle, now);
        var changed := UpdateEntry(id, f);
        MoreReloads(released, old(reloads), reloads);
      } else {
        NoReload(entries, id, listening);
      }
    }

    /** New credentials for a cloud entry, from reconfigure or after a refused sign-in. */
    method UpdateCredentials(id: nat, keys: SignIn, account: SignIn)
      requires Valid() && id in entries && entries[id].mode != Local && Renewed(entries[id], keys, account)
      modifies this`entries, this`reloads
      ensures Valid()
      ensures entries == old(entries)[id := WithCredentials(old(entries)[id], keys, account)]
      ensures reloads == old(reloads) + ListenerReload(old(entries), entries, id, old(listening))
    {
      var e := entries[id];
      var f := e;
      if e.auth == Some(App) {
        f := f.(email := Some(account.email), password := Some(account.password), userId := Some(account.userId));
      } else {
        f := f.(accessKey := Some(keys.access), secretKey := Some(keys.secret));
        if e.mode == Enhanced {
          f := f.(email := Some(account.email), password := Some(account.password), userId := Some(account.userId));
        }
      }
      SameDevicesConsistent(entries, id, f);
      var changed := UpdateEntry(id, f);
    }

    /** Whether the capture runs; one whose window is over is switched off on the way. */
    method CheckCapture(id: nat, now: int) returns (active: bool)
      requires Valid() && id in entries
      modifies this`entries, this`reloads
      ensures Valid()
      ensures active <==> WindowOpen(old(entries)[id], now)
      ensures entries == if old(entries)[id].capture == Some(true) && !active
        then old(entries)[id := CaptureOff(old(entries)[id])] else old(entries)
      ensures reloads == old(reloads) + ListenerReload(old(entries), entries, id, old(listening))
    {
      if WindowOpen(entries[id], now) {
        return true;
      }
      if entries[id].capture != Some(true) {
        return false;
      }
      DisableCapture(id);
      return false;
    }

    /** Clear the capture flag and its deadline. */
    method DisableCapture(id: nat)
      requires Valid() && id in entries
      modifies this`entries, this`reloads
      ensures Valid()
      ensures entries == old(entries)[id := CaptureOff(old(entries)[id])]
      ensures reloads == old(reloads) + ListenerReload(old(entries), entries, id, old(listening))
    {
      SameDevicesConsistent(entries, id, CaptureOff(entries[id]));
      var changed := UpdateEntry(id, CaptureOff(entries[id]));
    }

    method RemoveEntry(id: nat)
      requires Valid()
      modifies this
      ensures Valid()
      ensures entries == old(entries) - {id}
      ensures listening == old(listening) - {id} && retrying == old(retrying) - {id}
      ensures reloads == old(reloads) && released == old(released)
    {
      entries := entries - {id};
      listening, retrying := listening - {id}, retrying - {id};
    }

    /** Home Assistant sets an entry up, or fails and will retry. */
    method Load(id: nat, ready: bool)
      requires Valid() && id in entries
      modifies this`listening, this`retrying
      ensures Valid()
      ensures listening == if ready then old(listening) + {id} else old(listening) - {id}
      ensures retrying == if ready then old(retrying) - {id} else old(retrying) + {id}
    {
      if ready {
        listening, retrying := listening + {id}, retrying - {id};
      } else {
        listening, retrying := listening - {id}, retrying + {id};
      }
    }

    /** Any sequence of completed flows, one at a time, keeps the entries consistent. */
    method RunFlows(classify: Classifier, flows: seq<Flow>)
      requires Valid()
      modifies this
      ensures Valid()
    {
      for n := 0 to |flows|
        invariant Valid()
      {
        match flows[n]
        case LocalFlow(id, address, probe) =>
          if id !in entries && (probe.Found? ==> SerialShape(probe.serial)) {
            var r := SetupLocal(id, address, probe);
          }
        case CloudFlow(id, signIn, devices, selected) =>
          if id !in entries && Complete(signIn) {
            var r := SetupCloud(id, signIn, devices, selected);
          }
        case ReconfigureFlow(id, address, probe) =>
          if id in entries && (entries[id].mode == Local || SinglePowerOcean(entries[id]))
            && (probe.Found? ==> SerialShape(probe.serial)) {
            var r, unloaded := ReconfigureLocal(id, address, probe);
          }
        case SwitchFlow(id, signIn, devices) =>
          if id in entries && entries[id].mode == Local && Complete(signIn) {
            var r := SwitchToCloud(id, signIn, devices);
          }
        case OptionsFlow(id, mode, selected, listed, asked, wanted, vehicle, now) =>
          if id in entries && mode != Local {
            var r := SaveOptions(classify, id, mode, selected, listed, asked, wanted, vehicle, now);
          }
        case CredentialsFlow(id, keys, account) =>
          if id in entries && entries[id].mode != Local && Renewed(entries[id], keys, account) {
            UpdateCredentials(id, keys, account);
          }
        case ExpiryFlow(id, now) =>
          if id in entries {
            var active := CheckCapture(id, now);
          }
        case LoadFlow(id, ready) =>
          if id in entries {
            Load(id, ready);
          }
        case RemoveFlow(id) =>
          RemoveEntry(id);
      }
    }
  }

  datatype Flow =
    | LocalFlow(id: nat, address: Address, probe: Probe)
    | CloudFlow(id: nat, signIn: SignIn, devices: seq<Device>, selected: seq<string>)
    | ReconfigureFlow(id: nat, address: Address, probe: Probe)
    | SwitchFlow(id: nat, signIn: SignIn, devices: seq<Device>)
    | OptionsFlow(id: nat, mode: Mode, selected: seq<string>, listed: seq<Device>,
                  asked: Option<SignIn>, wanted: Option<bool>, vehicle: Option<bool>, now: int)
    | CredentialsFlow(id: nat, keys: SignIn, account: SignIn)
    | ExpiryFlow(id: nat, now: int)
    | LoadFlow(id: nat, ready: bool)
    | RemoveFlow(id: nat)

  /** The one device of an entry, under its own serial and nowhere else, makes a Local entry. */
  lemma ReconfiguredIsConsistent(entries: Entries, id: nat, title: string, device: Device, address: Address)
    requires Consistent(entries) && ValidHost(address.host) && SerialShape(device.sn)
    requires !SerialElsewhere(entries, device.sn, Some(id), false)
    ensures Consistent(entries[id := LocalEntry(title, device, address)])
  {
    LocalIsConsistent(entries, id, LocalEntry(title, device, address));
  }

  /** A device no other entry lists, picked from an account, makes a cloud entry. */
  lemma SwitchedIsConsistent(entries: Entries, id: nat, e: Entry, devices: seq<Device>, serial: string)
    requires Consistent(entries) && e.mode != Local && ProperCloud(e)
    requires e.devices == Pick(devices, [serial])
    requires !SerialElsewhere(entries, serial, Some(id), false)
    ensures Consistent(entries[id := e])
  {
    forall i | 0 <= i < |e.devices| ensures !SerialElsewhere(entries, e.devices[i].sn, Some(id), true) {
      assert e.devices[i] in Pick(devices, [serial]);
    }
    CloudIsConsistent(entries, id, e);
  }

  /** No Local entry but perhaps this one lists the serial. */
  predicate FreeOfLocal(entries: Entries, serial: string, id: nat) {
    !SerialElsewhere(entries, serial, Some(id), true)
      || (id !in entries && !SerialElsewhere(entries, serial, None, true))
  }

  /** Devices taken from a free selection are in no Local entry. */
  lemma PickedIsFree(entries: Entries, id: nat, e: Entry, selected: seq<string>)
    requires forall i | 0 <= i < |selected| :: FreeOfLocal(entries, selected[i], id)
    requires forall i | 0 <= i < |e.devices| :: e.devices[i].sn in selected
    ensures forall i | 0 <= i < |e.devices| :: !SerialElsewhere(entries, e.devices[i].sn, Some(id), true)
  {
    forall i | 0 <= i < |e.devices| ensures !SerialElsewhere(entries, e.devices[i].sn, Some(id), true) {
      var j :| 0 <= j < |selected| && selected[j] == e.devices[i].sn;
    }
  }

  /** An entry that keeps its devices and stays proper keeps the entries consistent. */
  lemma SameDevicesConsistent(entries: Entries, id: nat, e: Entry)
    requires Consistent(entries) && id in entries
    requires entries[id].devices == e.devices && entries[id].mode == e.mode && Proper(e)
    ensures Consistent(entries[id := e])
  {
    var after := entries[id := e];
    forall a, b | a in after && b in after && a != b && after[a].mode == Local
      ensures |after[a].devices| > 0 ==> !Lists(after[b], after[a].devices[0].sn)
    {
      assert Lists(after[b], after[a].devices[0].sn) <==> Lists(entries[b], entries[a].devices[0].sn);
    }
  }

  lemma KnownInFront(front: seq<Device>, rest: seq<Device>, sn: string)
    ensures Known(front + rest, sn) <==> Known(front, sn) || Known(rest, sn)
  {
    if Known(rest, sn) {
      var i :| 0 <= i < |rest| && rest[i].sn == sn;
      assert (front + rest)[|front| + i].sn == sn;
    }
    if Known(front, sn) {
      var i :| 0 <= i < |front| && front[i].sn == sn;
      assert (front + rest)[i].sn == sn;
    }
  }

  /** A save keeps one device for every selected serial that is known, the account's own listing first. */
  lemma {:induction false} SelectionIsKept(stored: seq<Device>, listed: seq<Device>, selected: seq<string>)
    ensures var r := SelectedDevices(stored, listed, selected);
      && (forall sn | sn in selected && (Known(listed, sn) || Known(stored, sn)) :: Known(r, sn))
      && (forall d | d in r :: d.sn in selected && (d in listed || (d in stored && !Known(listed, d.sn))))
    decreases |selected|
  {
    if selected != [] {
      var front, rest := Chosen(stored, listed, selected[0]), SelectedDevices(stored, listed, selected[1..]);
      hide Known, SelectedDevices, Chosen;
      SelectionIsKept(stored, listed, selected[1..]);
      forall sn | sn in selected && (Known(listed, sn) || Known(stored, sn)) ensures Known(front + rest, sn) {
        KnownInFront(front, rest, sn);
        assert sn == selected[0] || sn in selected[1..];
      }
    }
  }

  /** An options save of free devices keeps the entries consistent. */
  lemma SavedIsConsistent(entries: Entries, id: nat, mode: Mode, listed: seq<Device>, selected: seq<string>,
                          signIn: Option<SignIn>, wanted: Option<bool>, vehicle: Option<bool>, now: int)
    requires Consistent(entries) && id in entries && entries[id].mode != Local && mode != Local
    requires Answered(entries[id], mode, signIn)
    requires forall i | 0 <= i < |selected| :: !SerialElsewhere(entries, selected[i], Some(id), true)
    ensures Consistent(entries[id := SavedEntry(entries[id], mode,
      SelectedDevices(entries[id].devices, listed, selected), signIn, wanted, vehicle, now)])
  {
    var devices := SelectedDevices(entries[id].devices, listed, selected);
    assert Proper(entries[id]);
    SavedIsProper(entries[id], mode, devices, signIn, wanted, vehicle, now);
    hide SelectedDevices, SavedEntry, ApplyCapture, Answered, Consistent, SerialElsewhere, ProperCloud;
    var f := SavedEntry(entries[id], mode, devices, signIn, wanted, vehicle, now);
    PickedIsFree(entries, id, f, selected);
    CloudIsConsistent(entries, id, f);
  }

  /** A save of a proper cloud entry is one: it can sign in to its mode, and keeps whole pairs of keys. */
  lemma SavedIsProper(e: Entry, mode: Mode, devices: seq<Device>, signIn: Option<SignIn>, wanted: Option<bool>,
                      vehicle: Option<bool>, now: int)
    requires Answered(e, mode, signIn) && e.mode != Local && mode != Local && ProperCloud(e)
    ensures var f := SavedEntry(e, mode, devices, signIn, wanted, vehicle, now);
      f.mode == mode && f.devices == devices && ProperCloud(f)
  {
    SavedShape(e, mode, devices, signIn, wanted, vehicle, now);
    SavedCanSignIn(e, mode, devices, signIn, wanted, vehicle, now);
    SavedKeys(e, mode, devices, signIn, wanted, vehicle, now);
    hide SavedEntry, CanSignIn;
  }

  lemma SavedKeys(e: Entry, mode: Mode, devices: seq<Device>, signIn: Option<SignIn>, wanted: Option<bool>,
                  vehicle: Option<bool>, now: int)
    requires Answered(e, mode, signIn) && mode != Local
    ensures var f := SavedEntry(e, mode, devices, signIn, wanted, vehicle, now);
      (f.accessKey == e.accessKey && f.secretKey == e.secretKey) || (Given(f.accessKey) && Given(f.secretKey))
  {
    CaptureShape(e, wanted, now);
    hide ApplyCapture, NonEmptyOr;
  }

  /** A save changes neither the unique id nor the address. */
  lemma SavedShape(e: Entry, mode: Mode, devices: seq<Device>, signIn: Option<SignIn>, wanted: Option<bool>,
                   vehicle: Option<bool>, now: int)
    requires Answered(e, mode, signIn)
    ensures var f := SavedEntry(e, mode, devices, signIn, wanted, vehicle, now);
      f.mode == mode && f.devices == devices && f.uniqueId == e.uniqueId && f.address == e.address && f.title == e.title
  {
    CaptureShape(e, wanted, now);
    hide ApplyCapture, Complete, NonEmptyOr;
  }

  /** The capture switch touches nothing but the capture. */
  lemma CaptureShape(e: Entry, wanted: Option<bool>, now: int)
    ensures var f := ApplyCapture(e, wanted, now);
      e == f.(capture := e.capture, captureUntil := e.captureUntil)
  {
  }

  /** A save writes an entry that can sign in exactly if the entry had the credentials it does not ask for. */
  lemma SavedCanSignIn(e: Entry, mode: Mode, devices: seq<Device>, signIn: Option<SignIn>, wanted: Option<bool>,
                       vehicle: Option<bool>, now: int)
    requires Answered(e, mode, signIn) && mode != Local
    ensures CanSignIn(SavedEntry(e, mode, devices, signIn, wanted, vehicle, now)) <==>
      && (mode == Enhanced && e.mode == Enhanced ==> Given(e.email) && Given(e.password) && Given(e.userId))
      && (mode == Standard && Given(e.accessKey) ==> Given(e.secretKey))
  {
  }

  /** A new cloud entry signs in with what was collected, and so does one with new credentials. */
  lemma EntrySignsIn(title: string, devices: seq<Device>, signIn: SignIn, e: Entry, keys: SignIn, account: SignIn)
    requires keys.Keys? && account.Account? && (e.auth == Some(App) ==> e.mode == Enhanced)
    ensures SignInOf(CloudEntry(title, devices, signIn)) == signIn
    ensures Complete(signIn) ==> CanSignIn(CloudEntry(title, devices, signIn))
    ensures SignInOf(WithCredentials(e, keys, account)) == if e.mode == Enhanced then account else keys
    ensures WithCredentials(e, keys, account).(accessKey := e.accessKey, secretKey := e.secretKey, email := e.email,
                                               password := e.password, userId := e.userId) == e
  {
  }

  /** A saved entry signs in with what was asked for, or with what it stored when nothing was asked. */
  lemma SavedSignsIn(e: Entry, mode: Mode, devices: seq<Device>, signIn: Option<SignIn>, wanted: Option<bool>,
                     vehicle: Option<bool>, now: int)
    requires Answered(e, mode, signIn) && mode != Local
    ensures var f := SavedEntry(e, mode, devices, signIn, wanted, vehicle, now);
      && SignInOf(f) == (if AsksAccount(e, mode) || AsksKeys(e, mode) then signIn.value
                         else if mode == Enhanced then StoredAccount(e) else StoredKeys(e))
      && f.vehicleEnergy ==
           Some(mode == Enhanced && (vehicle == Some(true) || (vehicle.None? && e.vehicleEnergy == Some(true))))
  {
    CaptureShape(e, wanted, now);
    hide ApplyCapture;
  }

  /** The entry carries what setup writes for this sign-in and nothing more. */
  predicate AsSetUp(e: Entry, signIn: SignIn) {
    && e.capture.None? && e.captureUntil.None? && e.vehicleEnergy.None?
    && e.mode == ModeOf(signIn)
    && match signIn
       case Keys(access, secret) =>
         && e.auth == Some(Developer) && e.accessKey == Some(access) && e.secretKey == Some(secret)
         && e.email.None? && e.password.None? && e.userId.None?
       case Account(email, password, userId) =>
         && e.auth == Some(App) && e.accessKey.None? && e.secretKey.None?
         && e.email == Some(email) && e.password == Some(password) && e.userId == Some(userId)
  }

  /**
   A one-device cloud entry switched to Local and back is the entry it was if and only if the account
   lists the device as before, the sign-in is the same, no key of the other mode, no capture and no
   vehicle energy setting was stored, and the title was not the generated Local one.
   */
  lemma ThereAndBackIff(e: Entry, devices: seq<Device>, address: Address, signIn: SignIn)
    requires e.mode != Local && ProperCloud(e) && |e.devices| == 1
    ensures Clouded(Localized(e, address), devices, signIn) == e <==>
      && Pick(devices, [e.devices[0].sn]) == e.devices
      && AsSetUp(e, signIn)
      && e.title != LocalTitle(e.devices[0].sn)
  {
    TitlesDiffer(e.devices[0].sn);
    hide Pick, LocalTitle;
  }

  lemma WrittenTwice(entries: Entries, id: nat, e: Entry, f: Entry)
    ensures entries[id := e][id := f] == entries[id := f]
  {
  }

  lemma LocalizedIsLocal(e: Entry, address: Address)
    requires e.devices != []
    ensures Localized(e, address).mode == Local && Localized(e, address).devices == [e.devices[0]]
  {
  }

  lemma TitlesDiffer(serial: string)
    ensures LocalTitle(serial) != CLOUD_ENTRY_TITLE
  {
    var prefix := "EcoFlow Energy Local (";
    assert LocalTitle(serial)[|CLOUD_ENTRY_TITLE|] == prefix[|CLOUD_ENTRY_TITLE|];
  }

  /** An Enhanced entry that came from Standard and records: the way there and back loses recording and keys. */
  lemma ThereAndBackLoses(device: Device, keys: SignIn, account: SignIn, address: Address, now: int)
    requires keys.Keys? && account.Account? && Complete(keys) && Complete(account)
    ensures var setUp := CloudEntry(CLOUD_ENTRY_TITLE, [device], keys);
      var e := SavedEntry(setUp, Enhanced, [device], Some(account), Some(true), None, now);
      var back := Clouded(Localized(e, address), [device], account);
      && ProperCloud(e) && SignInOf(back) == SignInOf(e) && back.title == e.title && back.devices == e.devices
      && WindowOpen(e, now) && !WindowOpen(back, now)
      && StoredKeys(e) == keys && StoredKeys(back) == Keys("", "")
  {
    assert Pick([device], [device.sn]) == [device];
    TitlesDiffer(device.sn);
    hide LocalTitle;
  }
}
