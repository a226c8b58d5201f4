/** Two runs of the scan: what the report can tell about the serial number of a device. */
module ScanProofs {
  import opened Text
  import opened Modbus
  import opened ModbusLink
  import opened BlockRead
  import opened BlockProofs
  import opened Inverter
  import opened RegisterMap
  import opened Scan
  import Firmware

  const SERIAL_END: nat := SERIAL_OFFSET + SERIAL_REGISTER_COUNT
  const IDENTITY_END: nat := FIRMWARE_OFFSET + 2

  /** Two registers hold a 32-bit number low word first. */
  lemma WordOrder(lo: word, hi: word)
    ensures var v := RegisterMap.Decode(U32, [lo, hi]).value;
      && v / 0x1_0000 == hi && v % 0x1_0000 == lo
      && RegisterMap.Decode(F32, [lo, hi]).bits == v
      && v / 0x100 / 0x100 / 0x100 == hi / 0x100 && v / 0x100 / 0x100 % 0x100 == hi % 0x100
      && v / 0x100 % 0x100 == lo / 0x100 && v % 0x100 == lo % 0x100
  {
    var v := hi as int * 0x1_0000 + lo;
    var upper3 := v / 0x100;
    assert upper3 == hi as int * 0x100 + lo / 0x100 && v % 0x100 == lo % 0x100;
    var upper2 := upper3 / 0x100;
    assert upper2 == hi && upper3 % 0x100 == lo / 0x100;
  }

  /** The firmware text of the report is the dotted text of the 32-bit number in the two registers. */
  lemma FirmwareIsDotted(known: map<nat, word>)
    requires Window(known, FIRMWARE_OFFSET, 2).Some?
    ensures var v := RegisterMap.Decode(U32, Window(known, FIRMWARE_OFFSET, 2).value).value;
      FirmwareText(known).Some? &&
      (v > 0 ==> Firmware.ParseVersion("v" + FirmwareText(known).value) == Some(v))
  {
    var w := Window(known, FIRMWARE_OFFSET, 2).value;
    assert w == [w[0], w[1]];
    WordOrder(w[0], w[1]);
    var v := RegisterMap.Decode(U32, w).value;
    assert v == w[1] as int * 0x1_0000 + w[0];
    hide Decimal, Firmware.ParseVersion;
    Firmware.VersionRoundTrip(Firmware.Int(v));
    if v > 0 {
      assert Firmware.DecodeVersion(Firmware.Int(v)) == "v" + FirmwareText(known).value;
    }
  }

  ghost predicate SameBlocks(b: seq<Block>, c: seq<Block>, lo: nat, hi: nat) {
    |b| == |c| && forall i | 0 <= i < |b| :: SameBlock(b[i], c[i], lo, hi)
  }

  /** The same registers known, with the same words outside the hidden ones. */
  ghost predicate SameKnown(k: map<nat, word>, l: map<nat, word>, lo: nat, hi: nat) {
    k.Keys == l.Keys && forall r | r in k && !(lo <= r < hi) :: k[r] == l[r]
  }

  lemma SameWordMap(b: Block, c: Block, lo: nat, hi: nat)
    requires SameBlock(b, c, lo, hi)
    ensures SameKnown(WordMap(b), WordMap(c), lo, hi)
  {
    var k, l := WordMap(b), WordMap(c);
    forall r: nat ensures r in k <==> r in l {
      if b.offset <= r < b.offset + |b.words| {
        assert b.words[r - b.offset].Some? <==> c.words[r - b.offset].Some?;
        assert HasWord(b, r) <==> HasWord(c, r);
      }
    }
    assert k.Keys == l.Keys;
    forall r | r in k && !(lo <= r < hi) ensures k[r] == l[r] {
      assert b.words[r - b.offset] == c.words[r - b.offset];
    }
  }

  lemma {:induction false} SameKnownOf(b: seq<Block>, c: seq<Block>, lo: nat, hi: nat)
    requires SameBlocks(b, c, lo, hi)
    ensures SameKnown(KnownOf(b), KnownOf(c), lo, hi)
    decreases |b|
  {
    if b != [] {
      var n := |b| - 1;
      SameKnownOf(b[..n], c[..n], lo, hi);
      SameWordMap(b[n], c[n], lo, hi);
    }
  }

  lemma SameWindow(k: map<nat, word>, l: map<nat, word>, lo: nat, hi: nat, offset: nat, count: nat)
    requires SameKnown(k, l, lo, hi) && (hi <= offset || offset + count <= lo)
    ensures Window(k, offset, count) == Window(l, offset, count)
  {
    assert forall r: nat | offset <= r < offset + count :: r in k <==> r in l;
    if Window(k, offset, count).Some? {
      assert Window(k, offset, count).value == Window(l, offset, count).value;
    }
  }

  lemma SameReadings(k: map<nat, word>, l: map<nat, word>, lo: nat, hi: nat)
    requires SameKnown(k, l, lo, hi) && hi <= IDENTITY_END
    ensures ReadingsOf(k) == ReadingsOf(l)
  {
    TableIsClearOfIdentity();
    forall i | 0 <= i < |REGISTERS| ensures ReadingOf(REGISTERS[i], k) == ReadingOf(REGISTERS[i], l) {
      SameWindow(k, l, lo, hi, REGISTERS[i].offset, REGISTERS[i].Count());
    }
  }

  /** The printed words of a block give nothing of the serial range away. */
  lemma SameHex(b: Block, c: Block)
    requires SameBlock(b, c, SERIAL_OFFSET, SERIAL_END)
    ensures HexWithoutSerial(b.offset, b.words) == HexWithoutSerial(c.offset, c.words)
  {
    forall i | 0 <= i < |b.words|
      ensures ShownWord(b.offset + i, b.words[i]) == ShownWord(c.offset + i, c.words[i])
    {
    }
  }

  lemma PlanIsClearOfIdentity()
    ensures forall i | 0 <= i < |PLAN| ::
      IdentityBlock(PLAN[i].0) || PLAN[i].0 + PLAN[i].1 <= SERIAL_OFFSET || IDENTITY_END <= PLAN[i].0
  {
  }

  /** The masked serial a report shows for a matching device. */
  function MaskedSerial(blocks: seq<Block>): Option<string> {
    match SerialOf(blocks)
    case None => None
    case Some(serial) => Some(MaskSerial(serial))
  }

  lemma SameGet(k: map<nat, word>, l: map<nat, word>, lo: nat, hi: nat)
    requires SameKnown(k, l, lo, hi) && 3 <= lo
    ensures Get(k, 0) == Get(l, 0) && Get(k, 1) == Get(l, 1) && Get(k, 2) == Get(l, 2)
  {
    assert forall r | 0 <= r <= 2 :: r in k.Keys <==> r in l.Keys;
  }

  /** Blocks that differ in the serial words only give one report, the masked serial apart. */
  lemma ReportHidesSerial(b: seq<Block>, c: seq<Block>, unit: int)
    requires SameBlocks(b, c, SERIAL_OFFSET, SERIAL_END)
    ensures ReportOf(b, unit) == ReportOf(c, unit)
      <==> (Matches(KnownOf(b)) ==> MaskedSerial(b) == MaskedSerial(c))
    ensures Matches(KnownOf(b)) == Matches(KnownOf(c))
  {
    var k, l := KnownOf(b), KnownOf(c);
    SameKnownOf(b, c, SERIAL_OFFSET, SERIAL_END);
    SameGet(k, l, SERIAL_OFFSET, SERIAL_END);
    SameReadings(k, l, SERIAL_OFFSET, SERIAL_END);
    SameWindow(k, l, SERIAL_OFFSET, SERIAL_END, FIRMWARE_OFFSET, 2);
    SameWindow(k, l, SERIAL_OFFSET, SERIAL_END, FAULT_EVENT_OFFSET, FAULT_EVENT_COUNT);
    forall i | 0 <= i < |b| ensures ReportOf(b, unit).blocks[i] == ReportOf(c, unit).blocks[i] {
      assert SameBlock(b[i], c[i], SERIAL_OFFSET, SERIAL_END);
      SameHex(b[i], c[i]);
    }
    assert ReportOf(b, unit).blocks == ReportOf(c, unit).blocks;
  }

  /** A block outside the identity range, or withheld, prints the same words. */
  lemma SameReportBlock(b: Block, c: Block)
    requires SameBlock(b, c, SERIAL_OFFSET, IDENTITY_END)
    requires IdentityBlock(b.offset) || b.offset + |b.words| <= SERIAL_OFFSET || IDENTITY_END <= b.offset
    ensures ReportBlock(b, false) == ReportBlock(c, false)
  {
    if !IdentityBlock(b.offset) {
      assert b.words == c.words;
    }
  }

  /** For a product of unknown layout nothing of the two identity blocks is printed. */
  lemma ReportWithholdsIdentity(b: seq<Block>, c: seq<Block>, unit: int)
    requires SameBlocks(b, c, SERIAL_OFFSET, IDENTITY_END) && !Matches(KnownOf(b))
    requires forall i | 0 <= i < |b| ::
      IdentityBlock(b[i].offset) || b[i].offset + |b[i].words| <= SERIAL_OFFSET || IDENTITY_END <= b[i].offset
    ensures ReportOf(b, unit) == ReportOf(c, unit)
  {
    var k, l := KnownOf(b), KnownOf(c);
    SameKnownOf(b, c, SERIAL_OFFSET, IDENTITY_END);
    SameGet(k, l, SERIAL_OFFSET, IDENTITY_END);
    SameReadings(k, l, SERIAL_OFFSET, IDENTITY_END);
    SameWindow(k, l, SERIAL_OFFSET, IDENTITY_END, FAULT_EVENT_OFFSET, FAULT_EVENT_COUNT);
    forall i | 0 <= i < |b| ensures ReportOf(b, unit).blocks[i] == ReportOf(c, unit).blocks[i] {
      SameReportBlock(b[i], c[i]);
    }
    assert ReportOf(b, unit).blocks == ReportOf(c, unit).blocks;
  }

  // ------------------------------------------------------------- whole scan runs

  /** A call keeps its place when the runs of a scan are put together. */
  lemma {:induction false} ConcatAt(runs: seq<seq<Call>>, k: nat, i: nat)
    requires k < |runs| && i < |runs[k]|
    ensures |Concat(runs[..k])| + i < |Concat(runs)| && Concat(runs)[|Concat(runs[..k])| + i] == runs[k][i]
    decreases |runs|
  {
    var n := |runs| - 1;
    if k < n {
      assert runs[..n][..k] == runs[..k];
      ConcatAt(runs[..n], k, i);
    }
  }

  lemma FollowsPart(runs: seq<seq<Call>>, k: nat, a: Answers)
    requires Follows(Concat(runs), 0, a) && k < |runs|
    ensures Follows(runs[k], |Concat(runs[..k])|, a)
  {
    var at := |Concat(runs[..k])|;
    forall i | 0 <= i < |runs[k]| ensures runs[k][i].outcome == a(at + i, runs[k][i].offset, runs[k][i].count) {
      ConcatAt(runs, k, i);
      assert Concat(runs)[at + i].outcome == a(0 + (at + i), runs[k][i].offset, runs[k][i].count);
    }
  }

  /**
   A scan as it went over the wire: its runs of calls, the frames behind them, what the device served,
   and the pattern of refusal codes and of calls without an answer, position by position.
   */
  ghost predicate ScanOf(runs: seq<seq<Call>>, sent: seq<Sent>, unit: int, d: Device, codes: Codes,
                         silences: Silences) {
    && PlanRuns(PLAN, runs) && Justified(Concat(runs), sent, unit)
    && AllObey(sent, d) && EndsAs(Concat(runs), codes, silences)
  }

  /** The same registers are served, with the same words outside these. */
  ghost predicate DiffersWithin(d: Device, e: Device, lo: nat, hi: nat) {
    d.Keys == e.Keys && forall register | register in d && !(lo <= register < hi) :: d[register] == e[register]
  }

  lemma SameDevicesSameAnswers(d: Device, e: Device, codes: Codes, silences: Silences, lo: nat, hi: nat)
    requires DiffersWithin(d, e, lo, hi)
    ensures SameAnswers(AnswersOf(d, codes, silences), AnswersOf(e, codes, silences), lo, hi)
  {
    var a, b := AnswersOf(d, codes, silences), AnswersOf(e, codes, silences);
    forall k: nat, offset: nat, count: nat
      ensures SameOutcome(a(k, offset, count), b(k, offset, count), offset, lo, hi)
    {
      assert forall at | offset <= at < offset + count :: at in d.Keys <==> at in e.Keys;
      assert Serves(d, offset, count) <==> Serves(e, offset, count);
      if Serves(d, offset, count) {
        SameWords(d, e, offset, count, lo, hi);
      }
    }
  }

  lemma SameWords(d: Device, e: Device, offset: nat, count: nat, lo: nat, hi: nat)
    requires DiffersWithin(d, e, lo, hi) && Serves(d, offset, count) && Serves(e, offset, count)
    ensures SameOutcome(Words(WordsOf(d, offset, count)), Words(WordsOf(e, offset, count)), offset, lo, hi)
  {
  }

  lemma ConcatStep(runs: seq<seq<Call>>, k: nat)
    requires k < |runs|
    ensures |Concat(runs[..k + 1])| == |Concat(runs[..k])| + |runs[k]|
  {
    assert runs[..k + 1][..k] == runs[..k];
  }

  /** Up to any block of a plan the two scans made the same calls. */
  lemma {:induction false} SameScanTo(n: nat, plan: seq<(nat, nat)>, r: seq<seq<Call>>, s: seq<seq<Call>>,
                                      a: Answers, b: Answers, lo: nat, hi: nat)
    requires PlanRuns(plan, r) && PlanRuns(plan, s) && n <= |plan|
    requires Follows(Concat(r), 0, a) && Follows(Concat(s), 0, b) && SameAnswers(a, b, lo, hi)
    ensures |Concat(r[..n])| == |Concat(s[..n])|
    ensures forall i | 0 <= i < n :: SameCalls(r[i], s[i], lo, hi)
  {
    if n > 0 {
      var k := n - 1;
      SameScanTo(k, plan, r, s, a, b, lo, hi);
      SameBlockCalls(k, plan, r, s, a, b, lo, hi);
      hide Concat, SameCalls, Follows, SameAnswers, PlanRuns;
      ConcatStep(r, k);
      ConcatStep(s, k);
    } else {
      assert r[..0] == s[..0];
    }
  }

  lemma SameBlockCalls(k: nat, plan: seq<(nat, nat)>, r: seq<seq<Call>>, s: seq<seq<Call>>,
                       a: Answers, b: Answers, lo: nat, hi: nat)
    requires PlanRuns(plan, r) && PlanRuns(plan, s) && k < |plan|
    requires Follows(Concat(r), 0, a) && Follows(Concat(s), 0, b) && SameAnswers(a, b, lo, hi)
    requires |Concat(r[..k])| == |Concat(s[..k])|
    ensures SameCalls(r[k], s[k], lo, hi) && |r[k]| == |s[k]|
  {
    assert BlockRun(plan[k].0, plan[k].1, r[k]) && BlockRun(plan[k].0, plan[k].1, s[k]);
    hide Concat, Follows, SameAnswers, BlockRun;
    FollowsPart(r, k, a);
    FollowsPart(s, k, b);
    SameAnswersSameCalls(plan[k].0, plan[k].1, r[k], s[k], |Concat(r[..k])|, a, b, lo, hi);
  }

  lemma SameScan(r: seq<seq<Call>>, s: seq<seq<Call>>, a: Answers, b: Answers, lo: nat, hi: nat)
    requires PlanRuns(PLAN, r) && PlanRuns(PLAN, s)
    requires Follows(Concat(r), 0, a) && Follows(Concat(s), 0, b) && SameAnswers(a, b, lo, hi)
    ensures SameBlocks(BlocksOf(PLAN, r), BlocksOf(PLAN, s), lo, hi)
  {
    SameScanTo(|PLAN|, PLAN, r, s, a, b, lo, hi);
    forall i | 0 <= i < |PLAN| ensures SameBlock(BlocksOf(PLAN, r)[i], BlocksOf(PLAN, s)[i], lo, hi) {
      assert BlockRun(PLAN[i].0, PLAN[i].1, r[i]) && BlockRun(PLAN[i].0, PLAN[i].1, s[i]);
      SameCallsSameBlock(PLAN[i].0, PLAN[i].1, r[i], s[i], lo, hi);
    }
  }

  lemma SameScans(r: seq<seq<Call>>, s: seq<seq<Call>>, sentR: seq<Sent>, sentS: seq<Sent>, unit: int,
                  d: Device, e: Device, codes: Codes, silences: Silences, lo: nat, hi: nat)
    requires ScanOf(r, sentR, unit, d, codes, silences) && ScanOf(s, sentS, unit, e, codes, silences)
    requires DiffersWithin(d, e, lo, hi)
    ensures SameBlocks(BlocksOf(PLAN, r), BlocksOf(PLAN, s), lo, hi)
  {
    ObeyingRun(Concat(r), sentR, unit, d, codes, silences);
    ObeyingRun(Concat(s), sentS, unit, e, codes, silences);
    SameDevicesSameAnswers(d, e, codes, silences, lo, hi);
    SameScan(r, s, AnswersOf(d, codes, silences), AnswersOf(e, codes, silences), lo, hi);
  }

  // ------------------------------------------------------- the serial a scan finds

  /** The text of a device's serial registers. */
  function DeviceSerial(d: Device): Option<string> {
    if Serves(d, SERIAL_OFFSET, SERIAL_REGISTER_COUNT)
    then Some(Strip(WordText(WordsOf(d, SERIAL_OFFSET, SERIAL_REGISTER_COUNT)))) else None
  }

  /** The serial block, the second of the plan, was answered in full. */
  predicate SerialAnswered(blocks: seq<Block>) {
    |blocks| > 1 && forall i | 0 <= i < |blocks[1].words| :: blocks[1].words[i].Some?
  }

  /** The serial comes from the one block that can hold it. */
  lemma {:induction false} SerialOfOne(blocks: seq<Block>, k: nat)
    requires k < |blocks|
    requires forall j | 0 <= j < |blocks| && j != k :: SerialText(blocks[j].offset, blocks[j].words) == None
    ensures SerialOf(blocks) == SerialText(blocks[k].offset, blocks[k].words)
    decreases |blocks|
  {
    var n := |blocks| - 1;
    if k < n {
      SerialOfOne(blocks[..n], k);
    } else {
      NoSerialIn(blocks[..n]);
    }
  }

  lemma {:induction false} NoSerialIn(blocks: seq<Block>)
    requires forall j | 0 <= j < |blocks| :: SerialText(blocks[j].offset, blocks[j].words) == None
    ensures SerialOf(blocks) == None
    decreases |blocks|
  {
    if blocks != [] {
      NoSerialIn(blocks[..|blocks| - 1]);
    }
  }

  lemma SerialBlockOfPlan()
    ensures |PLAN| > 1 && PLAN[1] == (SERIAL_OFFSET, SERIAL_REGISTER_COUNT)
    ensures forall j | 0 <= j < |PLAN| && j != 1 ::
      PLAN[j].0 > SERIAL_OFFSET || PLAN[j].0 + PLAN[j].1 < SERIAL_OFFSET + SERIAL_REGISTER_COUNT
  {
  }

  /**
   What a scan finds as the serial is the device's own, and it finds it exactly when the serial
   block was answered.
   */
  lemma SerialIsTheDevices(runs: seq<seq<Call>>, sent: seq<Sent>, unit: int, d: Device)
    requires PlanRuns(PLAN, runs) && Justified(Concat(runs), sent, unit) && AllHonest(sent, d)
    ensures var b := BlocksOf(PLAN, runs);
      SerialOf(b) == (if SerialAnswered(b) then DeviceSerial(d) else None)
        && (SerialAnswered(b) ==> DeviceSerial(d).Some?)
    ensures var b := BlocksOf(PLAN, runs);
      ReportOf(b, unit).serialMasked ==
        if Get(KnownOf(b), 1) == Some(1) && Get(KnownOf(b), 2) == Some(1) && SerialAnswered(b)
        then Some(MaskSerial(DeviceSerial(d).value)) else None
  {
    var b := BlocksOf(PLAN, runs);
    SerialBlockOfPlan();
    BlocksAreTruthful(PLAN, runs, sent, unit, d);
    forall j | 0 <= j < |PLAN| ensures b[j].offset == PLAN[j].0 && |b[j].words| == PLAN[j].1 {
      assert BlockRun(PLAN[j].0, PLAN[j].1, runs[j]);
      BlockShape(PLAN[j].0, PLAN[j].1, runs[j]);
    }
    hide BlocksOf, PlanRuns, Justified, AllHonest, SerialOf, Strip;
    SerialOfOne(b, 1);
    SerialOfBlock(b[1], d);
  }

  lemma SerialOfBlock(b: Block, d: Device)
    requires b.offset == SERIAL_OFFSET && |b.words| == SERIAL_REGISTER_COUNT
    requires ShownWithin(b.offset, b.words, d)
    ensures var answered := forall i | 0 <= i < |b.words| :: b.words[i].Some?;
      SerialText(b.offset, b.words) == (if answered then DeviceSerial(d) else None)
        && (answered ==> DeviceSerial(d).Some?)
  {
    assert b.words[0..SERIAL_REGISTER_COUNT] == b.words;
    if forall i | 0 <= i < |b.words| :: b.words[i].Some? {
      forall at | SERIAL_OFFSET <= at < SERIAL_END ensures at in d {
        assert b.words[at - SERIAL_OFFSET].Some?;
      }
      assert AllWords(b.words).value == WordsOf(d, SERIAL_OFFSET, SERIAL_REGISTER_COUNT);
    }
  }

  /**
   Two serials, or the lack of them, look alike: both missing, or of one length with the same first
   four characters.
   */
  predicate LookAlike(s: Option<string>, t: Option<string>) {
    match (s, t)
    case (None, None) => true
    case (Some(a), Some(b)) => |a| == |b| && (if |a| <= 4 then a == b else a[..4] == b[..4])
    case _ => false
  }

  lemma MaskedLookAlike(b: seq<Block>, c: seq<Block>)
    ensures MaskedSerial(b) == MaskedSerial(c) <==> LookAlike(SerialOf(b), SerialOf(c))
  {
    if SerialOf(b).Some? && SerialOf(c).Some? {
      MaskIff(SerialOf(b).value, SerialOf(c).value);
    }
  }

  /**
   Two devices that serve the same registers and differ in the serial words only, scanned under one
   pattern of refusals and silences, give the same report if and only if the product does not match,
   or the serial block is not answered, or the serials of the two devices look alike.
   */
  lemma SerialStaysHidden(r: seq<seq<Call>>, s: seq<seq<Call>>, sentR: seq<Sent>, sentS: seq<Sent>, unit: int,
                          d: Device, e: Device, codes: Codes, silences: Silences)
    requires ScanOf(r, sentR, unit, d, codes, silences) && ScanOf(s, sentS, unit, e, codes, silences)
    requires DiffersWithin(d, e, SERIAL_OFFSET, SERIAL_END)
    ensures var b, c := BlocksOf(PLAN, r), BlocksOf(PLAN, s);
      ReportOf(b, unit) == ReportOf(c, unit) <==>
        !Matches(KnownOf(b)) || !SerialAnswered(b) || LookAlike(DeviceSerial(d), DeviceSerial(e))
  {
    var b, c := BlocksOf(PLAN, r), BlocksOf(PLAN, s);
    SameScans(r, s, sentR, sentS, unit, d, e, codes, silences, SERIAL_OFFSET, SERIAL_END);
    ObedientIsHonest(sentR, d);
    ObedientIsHonest(sentS, e);
    SerialIsTheDevices(r, sentR, unit, d);
    SerialIsTheDevices(s, sentS, unit, e);
    hide BlocksOf, ScanOf, ReportOf, SerialOf, KnownOf, DeviceSerial, LookAlike, MaskedSerial;
    SerialBlockOfPlan();
    SameAnsweredSerial(b, c);
    ReportHidesSerial(b, c, unit);
    MaskedLookAlike(b, c);
    NothingLooksAlike();
  }

  lemma NothingLooksAlike()
    ensures LookAlike(None, None)
  {
  }

  lemma SameAnsweredSerial(b: seq<Block>, c: seq<Block>)
    requires SameBlocks(b, c, SERIAL_OFFSET, SERIAL_END)
    ensures SerialAnswered(b) <==> SerialAnswered(c)
  {
    if |b| > 1 {
      assert SameBlock(b[1], c[1], SERIAL_OFFSET, SERIAL_END);
    }
  }

  /** For a product that does not match, devices differing anywhere in the identity blocks give one report. */
  lemma IdentityStaysHidden(r: seq<seq<Call>>, s: seq<seq<Call>>, sentR: seq<Sent>, sentS: seq<Sent>, unit: int,
                            d: Device, e: Device, codes: Codes, silences: Silences)
    requires ScanOf(r, sentR, unit, d, codes, silences) && ScanOf(s, sentS, unit, e, codes, silences)
    requires DiffersWithin(d, e, SERIAL_OFFSET, IDENTITY_END) && !Matches(KnownOf(BlocksOf(PLAN, r)))
    ensures ReportOf(BlocksOf(PLAN, r), unit) == ReportOf(BlocksOf(PLAN, s), unit)
  {
    SameScans(r, s, sentR, sentS, unit, d, e, codes, silences, SERIAL_OFFSET, IDENTITY_END);
    PlanIsClearOfIdentity();
    var c := BlocksOf(PLAN, r);
    forall i | 0 <= i < |PLAN| ensures c[i].offset == PLAN[i].0 && |c[i].words| == PLAN[i].1 {
      BlockShape(PLAN[i].0, PLAN[i].1, r[i]);
    }
    ReportWithholdsIdentity(c, BlocksOf(PLAN, s), unit);
  }
}
