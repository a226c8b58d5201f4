/** The whole scan: every block of the plan, and the report that hides the serial number. */
module Scan {
  import opened Text
  import opened Modbus
  import opened ModbusLink
  import opened BlockProofs
  import opened BlockRead
  import opened Inverter
  import opened RegisterMap

  // ------------------------------------------------------------- what is printed

  function HexDigit(d: nat): char
    requires d < 16
  {
    if d < 10 then Digit(d) else (d - 10 + 'a' as int) as char
  }

  /** Four lower-case hex digits. */
  function Hex(w: word): string {
    [HexDigit(w / 0x1000), HexDigit(w / 0x100 % 0x10), HexDigit(w / 0x10 % 0x10), HexDigit(w % 0x10)]
  }

  const HEX_DIGITS := "0123456789abcdef"

  /** Four lower-case hex digits, the highest first. */
  predicate IsHexOf(text: string, w: word) {
    text == [HEX_DIGITS[w / 4096], HEX_DIGITS[w / 256 % 16], HEX_DIGITS[w / 16 % 16], HEX_DIGITS[w % 16]]
  }

  lemma HexIsHex(w: word)
    ensures IsHexOf(Hex(w), w)
  {
    HexDigitIs(w / 0x1000);
    HexDigitIs(w / 0x100 % 0x10);
    HexDigitIs(w / 0x10 % 0x10);
    HexDigitIs(w % 0x10);
    hide HexDigit;
  }

  lemma HexDigitIs(d: nat)
    requires d < 16
    ensures HexDigit(d) == HEX_DIGITS[d]
  {
  }

  const NULLED_WORD := "****"

  predicate InSerial(register: nat) {
    SERIAL_OFFSET <= register < SERIAL_OFFSET + SERIAL_REGISTER_COUNT
  }

  function ShownWord(register: nat, w: Option<word>): Option<string> {
    if w.None? then None else if InSerial(register) then Some(NULLED_WORD) else Some(Hex(w.value))
  }

  /** Hex words for the report; a word of the serial range becomes stars. */
  function HexWithoutSerial(offset: nat, words: Shown): (shown: seq<Option<string>>)
    ensures |shown| == |words|
  {
    seq(|words|, i requires 0 <= i < |words| => ShownWord(offset + i, words[i]))
  }

  function AsciiChar(b: byte): char {
    if b < 128 then b as char else '\U{FFFD}'
  }

  /** The text of register words: ASCII, zero bytes dropped. */
  function WordText(words: seq<word>): string {
    if words == [] then ""
    else
      var hi, lo := words[0] / 0x100, words[0] % 0x100;
      (if hi == 0 then "" else [AsciiChar(hi)]) + (if lo == 0 then "" else [AsciiChar(lo)]) + WordText(words[1..])
  }

  /** Text packed two characters a word, the first in the high byte, a zero byte behind an odd end. */
  function PackText(s: string): seq<word>
    requires forall i | 0 <= i < |s| :: 0 < s[i] as int < 128
  {
    if |s| == 0 then [] else if |s| == 1 then [s[0] as int * 256]
    else [s[0] as int * 256 + s[1] as int] + PackText(s[2..])
  }

  lemma TextOfWord(hi: nat, lo: nat, rest: seq<word>)
    requires 0 < hi < 128 && lo < 128
    ensures WordText([hi * 256 + lo] + rest) == [hi as char] + (if lo == 0 then "" else [lo as char]) + WordText(rest)
  {
    TwoBytes(hi, lo);
    var w: word := hi * 256 + lo;
    assert ([w] + rest)[1..] == rest;
  }

  lemma TwoBytes(hi: nat, lo: nat)
    requires lo < 256
    ensures (hi * 256 + lo) / 256 == hi && (hi * 256 + lo) % 256 == lo
  {
  }

  lemma TextOfZeros(rest: seq<word>)
    ensures WordText([]) == "" && WordText([0] + rest) == WordText(rest)
  {
    assert ([0] + rest)[1..] == rest;
  }

  /** Packed text reads back, whatever zero words follow. */
  lemma {:induction false} PackedTextReads(s: string, zeros: seq<word>)
    requires forall i | 0 <= i < |s| :: 0 < s[i] as int < 128
    requires forall i | 0 <= i < |zeros| :: zeros[i] == 0
    ensures WordText(PackText(s) + zeros) == s
    decreases |s|, |zeros|
  {
    hide WordText;
    var words := PackText(s) + zeros;
    if s == "" {
      assert words == zeros;
      TextOfZeros(if zeros == [] then [] else zeros[1..]);
      if zeros != [] {
        PackedTextReads(s, zeros[1..]);
        assert words == [0] + (PackText(s) + zeros[1..]);
      }
    } else {
      var rest := if |s| == 1 then "" else s[2..];
      var lo := if |s| == 1 then 0 else s[1] as int;
      PackedTextReads(rest, zeros);
      TextOfWord(s[0] as int, lo, PackText(rest) + zeros);
      assert words == [s[0] as int * 256 + lo] + (PackText(rest) + zeros);
    }
  }

  /** The words of a block part, when every one was answered. */
  function AllWords(words: Shown): Option<seq<word>> {
    if forall i | 0 <= i < |words| :: words[i].Some?
    then Some(seq(|words|, i requires 0 <= i < |words| => words[i].value))
    else None
  }

  /** The serial in clear, when this block holds all of it. */
  function SerialText(offset: nat, words: Shown): Option<string> {
    if offset > SERIAL_OFFSET || SERIAL_OFFSET - offset + SERIAL_REGISTER_COUNT > |words| then None
    else
      var low := SERIAL_OFFSET - offset;
      match AllWords(words[low..low + SERIAL_REGISTER_COUNT])
      case None => None
      case Some(part) => Some(Strip(WordText(part)))
  }

  /** First four characters, the rest hidden. */
  function MaskSerial(serial: string): string {
    if serial == "" then "(empty)"
    else if |serial| <= 4 then serial
    else serial[..4] + seq(|serial| - 4, _ => '*')
  }

  /** Two serials look the same masked exactly when length and first four characters agree. */
  lemma MaskIff(s: string, t: string)
    ensures MaskSerial(s) == MaskSerial(t) <==>
      |s| == |t| && (if |s| <= 4 then s == t else s[..4] == t[..4])
    ensures MaskSerial("") == "(empty)"
    ensures (s != "" ==>
      |MaskSerial(s)| == |s| && forall i | 0 <= i < |s| :: MaskSerial(s)[i] == if i < 4 then s[i] else '*')
  {
    var m, n := MaskSerial(s), MaskSerial(t);
    if m == n {
      assert s == "" ==> m[6] == ')';
      assert t == "" ==> n[6] == ')';
      assert |s| > 4 ==> m[..4] == s[..4] && (|s| > 6 ==> m[6] == '*');
      assert |t| > 4 ==> n[..4] == t[..4] && (|t| > 6 ==> n[6] == '*');
    }
  }

  // -------------------------------------------------------------- the collection

  /** The answered words of a block by register. */
  function WordMap(b: Block): map<nat, word> {
    map r: nat | b.offset <= r < b.offset + |b.words| && HasWord(b, r) :: b.words[r - b.offset].value
  }

  predicate HasWord(b: Block, r: nat)
    requires b.offset <= r < b.offset + |b.words|
  {
    b.words[r - b.offset].Some?
  }

  function KnownOf(blocks: seq<Block>): map<nat, word> {
    if blocks == [] then map[]
    else KnownOf(blocks[..|blocks| - 1]) + WordMap(blocks[|blocks| - 1])
  }

  function SerialOf(blocks: seq<Block>): Option<string> {
    if blocks == [] then None
    else
      var last := blocks[|blocks| - 1];
      var found := SerialText(last.offset, last.words);
      if found.Some? then found else SerialOf(blocks[..|blocks| - 1])
  }

  function Window(known: map<nat, word>, offset: nat, count: nat): Option<seq<word>> {
    if forall r: nat | offset <= r < offset + count :: r in known
    then Some(seq(count, i requires 0 <= i < count => known[offset + i]))
    else None
  }

  function Get(known: map<nat, word>, register: nat): Option<word> {
    if register in known then Some(known[register]) else None
  }

  // ------------------------------------------------------------------ the report

  datatype BlockReport = BlockReport(offset: nat, count: nat, result: BlockResult, mode: ReadMode, status: Status,
                                     detail: Detail, words: Option<seq<Option<string>>>, withheld: bool)

  datatype Reading = Reading(key: string, offset: nat, answered: bool, value: Option<Decoded>, counter: bool,
                             plausibility: Option<Plausibility>)

  datatype Report = Report(protocolVersion: Option<word>, category: Option<word>, number: Option<word>,
                           matches: bool, firmware: Option<string>, serialMasked: Option<string>,
                           blocks: seq<BlockReport>, readings: seq<Reading>, faultEvents: Option<seq<word>>,
                           unit: int)

  predicate Matches(known: map<nat, word>) {
    Get(known, 1) == Some(SUPPORTED_CATEGORY) && Get(known, 2) == Some(SUPPORTED_NUMBER)
  }

  function ReportBlock(b: Block, matches: bool): BlockReport {
    var withheld := !matches && IdentityBlock(b.offset);
    BlockReport(b.offset, b.count, b.result, b.mode, b.status, b.detail,
                if withheld then None else Some(HexWithoutSerial(b.offset, b.words)), withheld)
  }

  function ReadingOf(def: RegisterDef, known: map<nat, word>): Reading {
    match Window(known, def.offset, def.Count())
    case None => Reading(def.key, def.offset, false, None, def.counter, None)
    case Some(words) =>
      var d := RegisterMap.Decode(def.decoder, words);
      Reading(def.key, def.offset, true, if IsFinite(d) then Some(d) else None, def.counter,
              Some(PlausibilityOf(d, def.bounds)))
  }

  function FirmwareText(known: map<nat, word>): Option<string> {
    match Window(known, FIRMWARE_OFFSET, 2)
    case None => None
    case Some(w) =>
      Some(Decimal(w[1] / 0x100) + "." + Decimal(w[1] % 0x100) + "."
           + Decimal(w[0] / 0x100) + "." + Decimal(w[0] % 0x100))
  }

  function NonZero(words: seq<word>): seq<word> {
    if words == [] then [] else (if words[0] == 0 then [] else [words[0]]) + NonZero(words[1..])
  }

  /** The non-zero words in their order. */
  lemma {:induction false} NonZeroParts(a: seq<word>, b: seq<word>, w: word)
    ensures NonZero(a + b) == NonZero(a) + NonZero(b)
    ensures NonZero([w]) == if w == 0 then [] else [w]
    decreases |a|
  {
    assert [w][1..] == [];
    if a == [] {
      assert a + b == b;
    } else {
      assert (a + b)[1..] == a[1..] + b;
      NonZeroParts(a[1..], b, w);
    }
  }

  function FaultEvents(known: map<nat, word>): Option<seq<word>> {
    match Window(known, FAULT_EVENT_OFFSET, FAULT_EVENT_COUNT)
    case None => None
    case Some(words) => Some(NonZero(words))
  }

  function ReadingsOf(known: map<nat, word>): (readings: seq<Reading>)
    ensures |readings| == |REGISTERS|
  {
    seq(|REGISTERS|, i requires 0 <= i < |REGISTERS| => ReadingOf(REGISTERS[i], known))
  }

  function ReportOf(blocks: seq<Block>, unit: int): Report {
    var known := KnownOf(blocks);
    var matches := Matches(known);
    Report(Get(known, 0), Get(known, 1), Get(known, 2), matches,
           if matches then FirmwareText(known) else None,
           if matches && SerialOf(blocks).Some? then Some(MaskSerial(SerialOf(blocks).value)) else None,
           seq(|blocks|, i requires 0 <= i < |blocks| => ReportBlock(blocks[i], matches)),
           ReadingsOf(known), FaultEvents(known), unit)
  }

  // -------------------------------------------------------------------- the scan

  predicate PlanFits(plan: seq<(nat, nat)>) {
    forall i | 0 <= i < |plan| :: 1 <= plan[i].1 <= MAX_REGISTERS_PER_READ
  }

  /** The calls a plan makes at most: each block once, and each of its registers once. */
  function PlanCalls(plan: seq<(nat, nat)>): nat {
    if plan == [] then 0 else PlanCalls(plan[..|plan| - 1]) + 1 + plan[|plan| - 1].1
  }

  function Concat(runs: seq<seq<Call>>): seq<Call> {
    if runs == [] then [] else Concat(runs[..|runs| - 1]) + runs[|runs| - 1]
  }

  /** One run of calls per block of the plan. */
  ghost predicate PlanRuns(plan: seq<(nat, nat)>, runs: seq<seq<Call>>) {
    |runs| == |plan| && forall i | 0 <= i < |plan| :: BlockRun(plan[i].0, plan[i].1, runs[i])
  }

  ghost function BlocksOf(plan: seq<(nat, nat)>, runs: seq<seq<Call>>): (blocks: seq<Block>)
    requires PlanRuns(plan, runs)
    ensures |blocks| == |plan|
  {
    seq(|plan|, i requires 0 <= i < |plan| => BlockOf(plan[i].0, plan[i].1, runs[i]))
  }

  /** Every frame asks for registers of one block of the plan. */
  ghost predicate AsksForPlan(sent: seq<Sent>, unit: int, plan: seq<(nat, nat)>) {
    forall i | 0 <= i < |sent| :: AsksForOneOf(sent[i].frame, unit, plan)
  }

  predicate AsksForOneOf(frame: seq<byte>, unit: int, plan: seq<(nat, nat)>) {
    exists j | 0 <= j < |plan| :: AsksWithin(frame, unit, plan[j].0, plan[j].1)
  }

  lemma PlanJoin(s0: seq<Sent>, s1: seq<Sent>, s2: seq<Sent>, unit: int, plan: seq<(nat, nat)>, k: nat)
    requires k < |plan| && s0 <= s1 <= s2
    requires AsksForPlan(s1[|s0|..], unit, plan) && AllWithin(s2[|s1|..], unit, plan[k].0, plan[k].1)
    ensures AsksForPlan(s2[|s0|..], unit, plan)
  {
    var sent, mine, latest := s2[|s0|..], s1[|s0|..], s2[|s1|..];
    forall i | 0 <= i < |sent| ensures AsksForOneOf(sent[i].frame, unit, plan) {
      if i < |mine| {
        assert sent[i] == mine[i];
      } else {
        assert sent[i] == latest[i - |mine|];
        assert AsksWithin(sent[i].frame, unit, plan[k].0, plan[k].1);
      }
    }
  }

  lemma OneMoreRun(plan: seq<(nat, nat)>, runs: seq<seq<Call>>, blocks: seq<Block>, run: seq<Call>, n: nat)
    requires n < |plan| && PlanRuns(plan[..n], runs) && blocks == BlocksOf(plan[..n], runs)
    requires BlockRun(plan[n].0, plan[n].1, run)
    ensures PlanRuns(plan[..n + 1], runs + [run])
    ensures BlocksOf(plan[..n + 1], runs + [run]) == blocks + [BlockOf(plan[n].0, plan[n].1, run)]
    ensures Concat(runs + [run]) == Concat(runs) + run
    ensures PlanCalls(plan[..n + 1]) == PlanCalls(plan[..n]) + 1 + plan[n].1
  {
    var next, more := plan[..n + 1], runs + [run];
    assert next[..n] == plan[..n] && more[..n] == runs;
    forall i | 0 <= i < |next| ensures BlockRun(next[i].0, next[i].1, more[i]) {
      if i < n {
        assert next[i] == plan[..n][i] && more[i] == runs[i];
      }
    }
  }

  lemma OneMoreBlock(blocks: seq<Block>, b: Block)
    ensures KnownOf(blocks + [b]) == KnownOf(blocks) + WordMap(b)
    ensures SerialOf(blocks + [b]) ==
      if SerialText(b.offset, b.words).Some? then SerialText(b.offset, b.words) else SerialOf(blocks)
  {
    assert (blocks + [b])[..|blocks|] == blocks;
  }

  lemma NothingAskedOfPlan(unit: int, plan: seq<(nat, nat)>)
    ensures AsksForPlan([], unit, plan)
  {
  }

  lemma EmptyPlan()
    ensures PlanRuns([], []) && BlocksOf([], []) == [] && KnownOf([]) == map[] && SerialOf([]) == None
    ensures Concat([]) == [] && PlanCalls([]) == 0
  {
  }

  lemma CallsJoin(calls0: seq<Call>, runs: seq<seq<Call>>, run: seq<Call>, calls: seq<Call>)
    requires calls0 + Concat(runs) <= calls && calls[|calls0 + Concat(runs)|..] == run
    ensures calls == calls0 + (Concat(runs) + run)
  {
  }

  /** Read the blocks of a plan in order. */
  method ReadPlan(link: Link, plan: seq<(nat, nat)>)
    returns (blocks: seq<Block>, known: map<nat, word>, serial: Option<string>, ghost runs: seq<seq<Call>>)
    requires link.InSync() && PlanFits(plan)
    modifies link, link.wire
    ensures link.InSync()
    ensures PlanRuns(plan, runs) && blocks == BlocksOf(plan, runs)
    ensures known == KnownOf(blocks) && serial == SerialOf(blocks)
    ensures link.calls == old(link.calls) + Concat(runs)
    ensures old(link.wire.sent) <= link.wire.sent
    ensures |link.wire.sent| <= |old(link.wire.sent)| + 2 * PlanCalls(plan)
    ensures Justified(Concat(runs), link.wire.sent[|old(link.wire.sent)|..], link.unit)
    ensures AsksForPlan(link.wire.sent[|old(link.wire.sent)|..], link.unit, plan)
  {
    hide Justified, BlockRun, BlockOf, AllWithin, AsksForPlan, PlanRuns, BlocksOf, Concat, KnownOf, SerialOf,
      PlanCalls, WordMap, SerialText;
    ghost var calls0, sent0 := link.calls, link.wire.sent;
    blocks, known, serial, runs := [], map[], None, [];
    EmptyPlan();
    NothingJustified([], link.unit);
    assert calls0 + [] == calls0 && sent0[|sent0|..] == [] && plan[..0] == [];
    assert AsksForPlan([], link.unit, plan) by { NothingAskedOfPlan(link.unit, plan); }
    for n := 0 to |plan|
      invariant link.InSync()
      invariant PlanRuns(plan[..n], runs) && blocks == BlocksOf(plan[..n], runs)
      invariant known == KnownOf(blocks) && serial == SerialOf(blocks)
      invariant link.calls == calls0 + Concat(runs)
      invariant sent0 <= link.wire.sent && |link.wire.sent| <= |sent0| + 2 * PlanCalls(plan[..n])
      invariant AsksForPlan(link.wire.sent[|sent0|..], link.unit, plan)
      invariant Justified(Concat(runs), link.wire.sent[|sent0|..], link.unit)
    {
      ghost var calls1, sent1 := link.calls, link.wire.sent;
      var block := ReadBlock(link, plan[n].0, plan[n].1);
      ghost var run := link.calls[|calls1|..];
      OneMoreRun(plan, runs, blocks, run, n);
      JustifiedJoin(sent0, sent1, link.wire.sent, link.unit, Concat(runs), run);
      PlanJoin(sent0, sent1, link.wire.sent, link.unit, plan, n);
      CallsJoin(calls0, runs, run, link.calls);
      OneMoreBlock(blocks, block);
      var found := SerialText(block.offset, block.words);
      if found.Some? {
        serial := found;
      }
      known := known + WordMap(block);
      blocks := blocks + [block];
      runs := runs + [run];
    }
    assert plan[..|plan|] == plan;
  }

  lemma PlanCallsStep(plan: seq<(nat, nat)>, n: nat)
    requires n < |plan|
    ensures PlanCalls(plan[..n + 1]) == PlanCalls(plan[..n]) + 1 + plan[n].1
  {
    assert plan[..n + 1][..n] == plan[..n];
  }

  /** The block sizes of the plan, in order. */
  const SIZES: seq<nat> := [3, 8, 2, 15, 18, 6, 17, 1, 1, 98, 20]

  lemma PlanSizes()
    ensures |PLAN| == 11 && forall i | 0 <= i < 11 :: PLAN[i].1 == SIZES[i]
  {
  }

  lemma CallsOfSizes(plan: seq<(nat, nat)>)
    requires |plan| == 11 && forall i | 0 <= i < 11 :: plan[i].1 == SIZES[i]
    ensures PlanCalls(plan) == 200
  {
    assert plan[..11] == plan && plan[..0] == [];
    var done := 0;
    assert PlanCalls(plan[..0]) == 0;
    hide PlanCalls;
    for n := 0 to 11
      invariant done == [0, 4, 13, 16, 32, 51, 58, 76, 78, 80, 179, 200][n] && PlanCalls(plan[..n]) == done
    {
      PlanCallsStep(plan, n);
      done := done + 1 + SIZES[n];
    }
  }

  lemma PlanOfTheScan()
    ensures PlanFits(PLAN) && PlanCalls(PLAN) == 200
  {
    PlanSizes();
    CallsOfSizes(PLAN);
  }

  // ------------------------------------------------------- a report and its device

  ghost predicate WithinDevice(known: map<nat, word>, d: Device) {
    forall register | register in known :: register in d && known[register] == d[register]
  }

  /** One text of a block: nothing for a missing word, stars for a serial word, else its four hex digits. */
  predicate ShowsWord(text: Option<string>, register: nat, w: Option<word>) {
    match w
    case None => text == None
    case Some(v) => text.Some? && if 3 <= register < 11 then text.value == "****" else IsHexOf(text.value, v)
  }

  /** A block of the report says of its block of calls what came, how, and every word it may show. */
  predicate ShowsBlock(shown: BlockReport, b: Block, matches: bool) {
    && shown.offset == b.offset && shown.count == b.count && shown.result == b.result && shown.mode == b.mode
    && shown.status == b.status && shown.detail == b.detail
    && (shown.withheld <==> !matches && (b.offset == 3 || b.offset == 11))
    && match shown.words
       case None => shown.withheld
       case Some(words) =>
         && !shown.withheld && |words| == |b.words|
         && forall i | 0 <= i < |words| :: ShowsWord(words[i], b.offset + i, b.words[i])
  }

  ghost predicate BlocksShown(report: Report, blocks: seq<Block>) {
    && |report.blocks| == |blocks|
    && forall k | 0 <= k < |blocks| :: ShowsBlock(report.blocks[k], blocks[k], report.matches)
  }

  lemma ReportShowsBlocks(blocks: seq<Block>, unit: int)
    ensures BlocksShown(ReportOf(blocks, unit), blocks)
  {
    hide KnownOf, FirmwareText, FaultEvents, ReadingsOf, SerialOf, MaskSerial, Matches, Get, ReportBlock, ShowsBlock;
    forall k | 0 <= k < |blocks|
      ensures ShowsBlock(ReportOf(blocks, unit).blocks[k], blocks[k], Matches(KnownOf(blocks)))
    {
      BlockIsShown(blocks[k], Matches(KnownOf(blocks)));
    }
  }

  predicate PrintsAt(b: BlockReport, register: nat) {
    && b.words.Some? && b.offset <= register < b.offset + |b.words.value|
    && b.words.value[register - b.offset].Some?
  }

  /** The report shows that this register was answered. */
  predicate Printed(blocks: seq<BlockReport>, register: nat) {
    exists k | 0 <= k < |blocks| :: PrintsAt(blocks[k], register)
  }

  predicate AllPrinted(blocks: seq<BlockReport>, offset: nat, count: nat) {
    forall register: nat | offset <= register < offset + count :: Printed(blocks, register)
  }

  function InRange(v: real, bounds: Option<Bounds>): Plausibility {
    match bounds
    case None => NoRangeCheck
    case Some(b) =>
      if v < b.low as real || (b.high.Some? && v > b.high.value as real) then Implausible else Plausible
  }

  function WordCount(decoder: Decoder): nat {
    match decoder
    case U16 => 1
    case U32 => 2
    case F32 => 2
  }

  /** The number of an answered reading, the second register the high word; no number for a float without one. */
  ghost predicate Tells(reading: Reading, def: RegisterDef, d: Device)
    requires Serves(d, def.offset, WordCount(def.decoder))
  {
    match def.decoder
    case U16 =>
      && reading.value == Some(Unsigned(d[def.offset]))
      && reading.plausibility == Some(InRange(d[def.offset] as real, def.bounds))
    case U32 =>
      var n := 65536 * (d[def.offset + 1] as int) + d[def.offset];
      reading.value == Some(Unsigned(n)) && reading.plausibility == Some(InRange(n as real, def.bounds))
    case F32 =>
      var bits := 65536 * (d[def.offset + 1] as int) + d[def.offset];
      if d[def.offset + 1] / 128 % 256 == 255 then
        reading.value == None && reading.plausibility == Some(Implausible)
      else
        && reading.value == Some(Float(bits))
        && IsFinite(Float(bits)) && reading.plausibility == Some(InRange(ValueOf(Float(bits)), def.bounds))
  }

  /** A reading is answered exactly when all its registers were, and tells the device's own number then. */
  ghost predicate ReadingOfDevice(reading: Reading, def: RegisterDef, blocks: seq<BlockReport>, d: Device) {
    && reading.key == def.key && reading.offset == def.offset && reading.counter == def.counter
    && (reading.answered <==> AllPrinted(blocks, def.offset, WordCount(def.decoder)))
    && if reading.answered then Serves(d, def.offset, WordCount(def.decoder)) && Tells(reading, def, d)
       else reading.value == None && reading.plausibility == None
  }

  ghost predicate OptionOfDevice(shown: Option<word>, register: nat, blocks: seq<BlockReport>, d: Device) {
    if Printed(blocks, register) then register in d && shown == Some(d[register]) else shown == None
  }

  ghost predicate WordsOfDevice(offset: nat, words: seq<Option<string>>, d: Device) {
    forall i | 0 <= i < |words| && words[i].Some? ::
      offset + i in d && ShowsWord(words[i], offset + i, Some(d[offset + i]))
  }

  /** Every reading, every word printed and everything said of the device is what the device holds. */
  ghost predicate ReportOfDevice(report: Report, d: Device) {
    && |report.readings| == |REGISTERS|
    && (forall i | 0 <= i < |REGISTERS| :: ReadingOfDevice(report.readings[i], REGISTERS[i], report.blocks, d))
    && (forall b | b in report.blocks && b.words.Some? :: WordsOfDevice(b.offset, b.words.value, d))
    && OptionOfDevice(report.protocolVersion, 0, report.blocks, d)
    && OptionOfDevice(report.category, 1, report.blocks, d)
    && OptionOfDevice(report.number, 2, report.blocks, d)
    && (report.matches <==> report.category == Some(1) && report.number == Some(1))
    && FirmwareOfDevice(report, d)
    && FaultsOfDevice(report, d)
  }

  ghost predicate FirmwareOfDevice(report: Report, d: Device) {
    if report.matches && AllPrinted(report.blocks, 11, 2) then
      && 11 in d && 12 in d
      && report.firmware == Some(Decimal(d[12] / 256) + "." + Decimal(d[12] % 256) + "." + Decimal(d[11] / 256) + "."
                                 + Decimal(d[11] % 256))
    else report.firmware == None
  }

  ghost predicate FaultsOfDevice(report: Report, d: Device) {
    if AllPrinted(report.blocks, 0x0801, 20) then
      Serves(d, 0x0801, 20) && report.faultEvents == Some(NonZero(WordsOf(d, 0x0801, 20)))
    else report.faultEvents == None
  }

  // ------------------------------------------------------------ from the calls to the report

  lemma BlockIsShown(b: Block, matches: bool)
    ensures ShowsBlock(ReportBlock(b, matches), b, matches)
  {
    var shown := ReportBlock(b, matches);
    if shown.words.Some? {
      forall i | 0 <= i < |b.words| ensures ShowsWord(shown.words.value[i], b.offset + i, b.words[i]) {
        if b.words[i].Some? {
          HexIsHex(b.words[i].value);
          hide Hex, IsHexOf;
        }
      }
    }
  }

  predicate HoldsAt(b: Block, register: nat) {
    b.offset <= register < b.offset + |b.words| && b.words[register - b.offset].Some?
  }

  lemma {:induction false} KnownIff(blocks: seq<Block>, register: nat)
    ensures register in KnownOf(blocks) <==> exists k | 0 <= k < |blocks| :: HoldsAt(blocks[k], register)
    decreases |blocks|
  {
    if blocks != [] {
      var n := |blocks| - 1;
      KnownIff(blocks[..n], register);
      assert register in WordMap(blocks[n]) <==> HoldsAt(blocks[n], register) by {
        if blocks[n].offset <= register < blocks[n].offset + |blocks[n].words| {
          assert HasWord(blocks[n], register) <==> HoldsAt(blocks[n], register);
        }
      }
      if register in KnownOf(blocks[..n]) {
        var k :| 0 <= k < n && HoldsAt(blocks[..n][k], register);
        assert HoldsAt(blocks[k], register);
      }
      if k :| 0 <= k < |blocks| && HoldsAt(blocks[k], register) {
        assert k < n ==> HoldsAt(blocks[..n][k], register);
      }
    }
  }

  /** No block with identity words reaches another register, so no other register is ever withheld. */
  ghost predicate IdentityApart(blocks: seq<Block>) {
    forall k | 0 <= k < |blocks| && IdentityBlock(blocks[k].offset) ::
      3 <= blocks[k].offset && blocks[k].offset + |blocks[k].words| <= 13
  }

  lemma PrintedIffKnown(blocks: seq<Block>, unit: int, register: nat)
    requires IdentityApart(blocks) && (Matches(KnownOf(blocks)) || register < 3 || register >= 13)
    ensures Printed(ReportOf(blocks, unit).blocks, register) <==> register in KnownOf(blocks)
  {
    hide KnownOf, FirmwareText, FaultEvents, ReadingsOf, SerialOf, MaskSerial, Matches, Get;
    var report := ReportOf(blocks, unit);
    KnownIff(blocks, register);
    forall k | 0 <= k < |blocks| ensures PrintsAt(report.blocks[k], register) <==> HoldsAt(blocks[k], register) {
      assert report.blocks[k] == ReportBlock(blocks[k], Matches(KnownOf(blocks)));
    }
  }

  lemma AllPrintedIff(blocks: seq<Block>, unit: int, offset: nat, count: nat)
    requires IdentityApart(blocks) && (Matches(KnownOf(blocks)) || offset + count <= 3 || offset >= 13)
    ensures AllPrinted(ReportOf(blocks, unit).blocks, offset, count) <==> Window(KnownOf(blocks), offset, count).Some?
  {
    hide ReportOf, KnownOf, Printed, Matches, IdentityApart;
    forall register: nat | offset <= register < offset + count
      ensures Printed(ReportOf(blocks, unit).blocks, register) <==> register in KnownOf(blocks)
    {
      PrintedIffKnown(blocks, unit, register);
    }
  }

  /** Sixteen exponent and sign bits stand in the second register. */
  lemma ExponentWord(lo: word, hi: word)
    ensures (hi as int * 0x1_0000 + lo) / 0x80_0000 % 0x100 == hi / 128 % 256
  {
    assert (hi as int * 0x1_0000 + lo) / 0x80_0000 == hi / 128;
  }

  lemma ReadingTells(def: RegisterDef, d: Device)
    requires ReadingOf(def, d).answered
    ensures Serves(d, def.offset, WordCount(def.decoder)) && Tells(ReadingOf(def, d), def, d)
  {
    var words := Window(d, def.offset, def.Count()).value;
    if !def.decoder.U16? {
      ExponentWord(words[0], words[1]);
    }
    hide ValueOf;
  }

  lemma OneReading(def: RegisterDef, blocks: seq<Block>, unit: int, d: Device)
    requires IdentityApart(blocks) && def.offset >= 13 && WithinDevice(KnownOf(blocks), d)
    ensures ReadingOfDevice(ReadingOf(def, KnownOf(blocks)), def, ReportOf(blocks, unit).blocks, d)
  {
    AllPrintedIff(blocks, unit, def.offset, WordCount(def.decoder));
    ReadingWithin(def, KnownOf(blocks), d);
    var reading := ReadingOf(def, KnownOf(blocks));
    if reading.answered {
      ReadingTells(def, d);
    }
    hide ReportOf, KnownOf, AllPrinted, Tells, Window, WithinDevice, IdentityApart, IsFinite, PlausibilityOf;
  }

  lemma OneOption(blocks: seq<Block>, unit: int, register: nat, d: Device)
    requires IdentityApart(blocks) && register < 3 && WithinDevice(KnownOf(blocks), d)
    ensures OptionOfDevice(Get(KnownOf(blocks), register), register, ReportOf(blocks, unit).blocks, d)
  {
    hide ReportOf, KnownOf, Printed;
    PrintedIffKnown(blocks, unit, register);
  }

  lemma FirmwareShown(blocks: seq<Block>, unit: int, d: Device)
    requires IdentityApart(blocks) && WithinDevice(KnownOf(blocks), d)
    ensures FirmwareOfDevice(ReportOf(blocks, unit), d)
  {
    hide KnownOf, AllPrinted, FaultEvents, ReadingsOf, SerialOf, MaskSerial, Decimal;
    if Matches(KnownOf(blocks)) {
      AllPrintedIff(blocks, unit, FIRMWARE_OFFSET, 2);
      if Window(KnownOf(blocks), FIRMWARE_OFFSET, 2).Some? {
        assert 11 in KnownOf(blocks) && 12 in KnownOf(blocks);
      }
    }
  }

  lemma FaultsShown(blocks: seq<Block>, unit: int, d: Device)
    requires IdentityApart(blocks) && WithinDevice(KnownOf(blocks), d)
    ensures FaultsOfDevice(ReportOf(blocks, unit), d)
  {
    hide KnownOf, AllPrinted, FirmwareText, ReadingsOf, SerialOf, MaskSerial, NonZero;
    AllPrintedIff(blocks, unit, FAULT_EVENT_OFFSET, FAULT_EVENT_COUNT);
    if Window(KnownOf(blocks), FAULT_EVENT_OFFSET, FAULT_EVENT_COUNT).Some? {
      WindowWithin(KnownOf(blocks), d, FAULT_EVENT_OFFSET, FAULT_EVENT_COUNT);
      assert Serves(d, FAULT_EVENT_OFFSET, FAULT_EVENT_COUNT);
      assert Window(d, FAULT_EVENT_OFFSET, FAULT_EVENT_COUNT).value == WordsOf(d, 0x0801, 20);
    }
  }

  lemma {:induction false} InConcat(runs: seq<seq<Call>>, k: nat, c: Call)
    requires k < |runs| && c in runs[k]
    ensures c in Concat(runs)
    decreases |runs|
  {
    var n := |runs| - 1;
    if k < n {
      InConcat(runs[..n], k, c);
    }
  }

  /** The blocks of a scan over an honest wire hold nothing but the device's words. */
  lemma BlocksAreTruthful(plan: seq<(nat, nat)>, runs: seq<seq<Call>>, sent: seq<Sent>, unit: int, d: Device)
    requires PlanRuns(plan, runs) && Justified(Concat(runs), sent, unit) && AllHonest(sent, d)
    ensures forall k | 0 <= k < |plan| ::
      var b := BlocksOf(plan, runs)[k]; ShownWithin(b.offset, b.words, d)
  {
    HonestRun(Concat(runs), sent, unit, d);
    forall k | 0 <= k < |plan|
      ensures var b := BlocksOf(plan, runs)[k]; ShownWithin(b.offset, b.words, d)
    {
      forall i | 0 <= i < |runs[k]| ensures Truthful(runs[k][i], d) {
        InConcat(runs, k, runs[k][i]);
        var j :| 0 <= j < |Concat(runs)| && Concat(runs)[j] == runs[k][i];
      }
      assert BlockRun(plan[k].0, plan[k].1, runs[k]);
      TruthfulWords(plan[k].0, plan[k].1, runs[k], d);
      BlockShape(plan[k].0, plan[k].1, runs[k]);
    }
  }

  lemma BlockShape(offset: nat, count: nat, run: seq<Call>)
    requires BlockRun(offset, count, run)
    ensures var b := BlockOf(offset, count, run); b.offset == offset && b.count == count && |b.words| == count
  {
  }

  lemma {:induction false} KnownIsWithin(blocks: seq<Block>, d: Device)
    requires forall k | 0 <= k < |blocks| ::
      ShownWithin(blocks[k].offset, blocks[k].words, d)
    ensures WithinDevice(KnownOf(blocks), d)
    decreases |blocks|
  {
    if blocks != [] {
      var n := |blocks| - 1;
      KnownIsWithin(blocks[..n], d);
      var b := blocks[n];
      forall register | register in WordMap(b) ensures register in d && WordMap(b)[register] == d[register] {
        assert b.words[register - b.offset].Some?;
        assert b.offset + (register - b.offset) == register;
      }
    }
  }

  lemma WindowWithin(known: map<nat, word>, d: Device, offset: nat, count: nat)
    requires WithinDevice(known, d) && Window(known, offset, count).Some?
    ensures Window(d, offset, count) == Window(known, offset, count)
  {
    assert forall register: nat | offset <= register < offset + count :: register in known && register in d;
    assert Window(d, offset, count).value == Window(known, offset, count).value;
  }

  lemma ReadingWithin(def: RegisterDef, known: map<nat, word>, d: Device)
    requires WithinDevice(known, d)
    ensures ReadingOf(def, known).answered ==> ReadingOf(def, known) == ReadingOf(def, d)
  {
    hide Window;
    if Window(known, def.offset, def.Count()).Some? {
      WindowWithin(known, d, def.offset, def.Count());
    }
  }

  lemma BlockReportWithin(b: Block, matches: bool, d: Device)
    requires ShownWithin(b.offset, b.words, d)
    ensures var shown := ReportBlock(b, matches);
      shown.words.Some? ==> WordsOfDevice(shown.offset, shown.words.value, d)
  {
    BlockIsShown(b, matches);
    hide ReportBlock, IsHexOf;
  }

  /** A report over an honest wire, whatever delays, resets and broken links there were, is the device's own. */
  lemma ReportIsOfDevice(runs: seq<seq<Call>>, sent: seq<Sent>, unit: int, d: Device)
    requires PlanRuns(PLAN, runs) && Justified(Concat(runs), sent, unit) && AllHonest(sent, d)
    ensures ReportOfDevice(ReportOf(BlocksOf(PLAN, runs), unit), d)
  {
    BlocksAreTruthful(PLAN, runs, sent, unit, d);
    PlanKeepsIdentityApart(runs);
    TruthfulBlocksReport(BlocksOf(PLAN, runs), unit, d);
  }

  lemma TruthfulBlocksReport(blocks: seq<Block>, unit: int, d: Device)
    requires forall k | 0 <= k < |blocks| :: ShownWithin(blocks[k].offset, blocks[k].words, d)
    requires IdentityApart(blocks)
    ensures ReportOfDevice(ReportOf(blocks, unit), d)
  {
    hide KnownOf, ReadingOf, WordsOfDevice, ReportBlock, WithinDevice, SerialOf, FirmwareText, FaultEvents,
      ReadingOfDevice, FirmwareOfDevice, FaultsOfDevice, OptionOfDevice, IdentityApart, ShownWithin;
    KnownIsWithin(blocks, d);
    TableIsClearOfIdentity();
    var report := ReportOf(blocks, unit);
    forall i | 0 <= i < |REGISTERS| ensures ReadingOfDevice(report.readings[i], REGISTERS[i], report.blocks, d) {
      OneReading(REGISTERS[i], blocks, unit, d);
    }
    forall b | b in report.blocks && b.words.Some? ensures WordsOfDevice(b.offset, b.words.value, d) {
      var k :| 0 <= k < |blocks| && report.blocks[k] == b;
      BlockReportWithin(blocks[k], report.matches, d);
    }
    OneOption(blocks, unit, 0, d);
    OneOption(blocks, unit, 1, d);
    OneOption(blocks, unit, 2, d);
    FirmwareShown(blocks, unit, d);
    FaultsShown(blocks, unit, d);
  }

  /** No two blocks share a register. */
  ghost predicate Disjoint(blocks: seq<Block>) {
    forall j, k | 0 <= j < k < |blocks| :: Apart(blocks[j], blocks[k])
  }

  predicate Apart(b: Block, c: Block) {
    b.offset + |b.words| <= c.offset || c.offset + |c.words| <= b.offset
  }

  lemma OwnWordsHeld(b: Block, known: map<nat, word>)
    ensures ShownWithin(b.offset, b.words, known + WordMap(b))
  {
    forall i | 0 <= i < |b.words| && b.words[i].Some?
      ensures b.offset + i in WordMap(b) && b.words[i].value == WordMap(b)[b.offset + i]
    {
      assert b.offset + i - b.offset == i && HasWord(b, b.offset + i);
    }
  }

  lemma OtherWordsKept(b: Block, c: Block, known: map<nat, word>)
    requires Apart(b, c) && ShownWithin(b.offset, b.words, known)
    ensures ShownWithin(b.offset, b.words, known + WordMap(c))
  {
    forall i | 0 <= i < |b.words| && b.words[i].Some?
      ensures b.offset + i in known + WordMap(c) && b.words[i].value == (known + WordMap(c))[b.offset + i]
    {
      assert b.offset + i in known;
    }
  }

  lemma {:induction false} KnownKeepsBlocks(blocks: seq<Block>, k: nat)
    requires Disjoint(blocks) && k < |blocks|
    ensures ShownWithin(blocks[k].offset, blocks[k].words, KnownOf(blocks))
    decreases |blocks|
  {
    hide WordMap, Apart, ShownWithin;
    var n := |blocks| - 1;
    if k < n {
      KnownKeepsBlocks(blocks[..n], k);
      assert Apart(blocks[k], blocks[n]);
      OtherWordsKept(blocks[k], blocks[n], KnownOf(blocks[..n]));
    } else {
      OwnWordsHeld(blocks[k], KnownOf(blocks[..n]));
    }
  }

  lemma PlanIsDisjoint()
    ensures forall j, k | 0 <= j < k < |PLAN| ::
      PLAN[j].0 + PLAN[j].1 <= PLAN[k].0 || PLAN[k].0 + PLAN[k].1 <= PLAN[j].0
  {
  }

  /** Whatever came, the report tells exactly the words it knows. */
  lemma ReportOfKnown(runs: seq<seq<Call>>, unit: int)
    requires PlanRuns(PLAN, runs)
    ensures ReportOfDevice(ReportOf(BlocksOf(PLAN, runs), unit), KnownOf(BlocksOf(PLAN, runs)))
  {
    var blocks := BlocksOf(PLAN, runs);
    PlanIsDisjoint();
    forall k | 0 <= k < |PLAN| ensures blocks[k].offset == PLAN[k].0 && |blocks[k].words| == PLAN[k].1 {
      assert BlockRun(PLAN[k].0, PLAN[k].1, runs[k]);
      BlockShape(PLAN[k].0, PLAN[k].1, runs[k]);
    }
    PlanKeepsIdentityApart(runs);
    forall j, k | 0 <= j < k < |PLAN| ensures Apart(blocks[j], blocks[k]) {
    }
    hide BlocksOf, PlanRuns, KnownOf, ReportOf, ReportOfDevice, IdentityApart, ShownWithin, PLAN, Apart;
    forall k | 0 <= k < |blocks| ensures ShownWithin(blocks[k].offset, blocks[k].words, KnownOf(blocks)) {
      KnownKeepsBlocks(blocks, k);
    }
    TruthfulBlocksReport(blocks, unit, KnownOf(blocks));
  }

  lemma IdentityBlocksOfPlan()
    ensures forall k | 0 <= k < |PLAN| && IdentityBlock(PLAN[k].0) :: 3 <= PLAN[k].0 && PLAN[k].0 + PLAN[k].1 <= 13
  {
  }

  lemma PlanKeepsIdentityApart(runs: seq<seq<Call>>)
    requires PlanRuns(PLAN, runs)
    ensures IdentityApart(BlocksOf(PLAN, runs))
  {
    IdentityBlocksOfPlan();
    forall k | 0 <= k < |PLAN|
      ensures var b := BlocksOf(PLAN, runs)[k]; b.offset == PLAN[k].0 && |b.words| == PLAN[k].1
    {
      assert BlockRun(PLAN[k].0, PLAN[k].1, runs[k]);
      BlockShape(PLAN[k].0, PLAN[k].1, runs[k]);
    }
  }

  /** Build the report from the blocks, the words known and the last serial found. */
  method BuildReport(blocks: seq<Block>, known: map<nat, word>, serial: Option<string>, unit: int)
    returns (report: Report)
    requires known == KnownOf(blocks) && serial == SerialOf(blocks)
    ensures report == ReportOf(blocks, unit)
  {
    hide KnownOf, SerialOf, ReadingOf, ReportBlock, FirmwareText, FaultEvents, MaskSerial, Get, Matches;
    var readings := [];
    for n := 0 to |REGISTERS|
      invariant readings == ReadingsOf(known)[..n]
    {
      readings := readings + [ReadingOf(REGISTERS[n], known)];
    }
    var matches := Matches(known);
    var shown := [];
    for n := 0 to |blocks|
      invariant |shown| == n && forall i | 0 <= i < n :: shown[i] == ReportBlock(blocks[i], matches)
    {
      shown := shown + [ReportBlock(blocks[n], matches)];
    }
    var firmware := if matches then FirmwareText(known) else None;
    var masked := if matches && serial.Some? then Some(MaskSerial(serial.value)) else None;
    report := Report(Get(known, 0), Get(known, 1), Get(known, 2), matches, firmware, masked,
                     shown, readings, FaultEvents(known), unit);
  }

  /** Run the whole scan: at most four hundred frames, every one a read of a block of the plan. */
  method ScanDevice(link: Link) returns (report: Report, ghost runs: seq<seq<Call>>)
    requires link.InSync()
    modifies link, link.wire
    ensures link.InSync()
    ensures PlanRuns(PLAN, runs) && link.calls == old(link.calls) + Concat(runs)
    ensures report == ReportOf(BlocksOf(PLAN, runs), link.unit)
    ensures old(link.wire.sent) <= link.wire.sent && |link.wire.sent| <= |old(link.wire.sent)| + 400
    ensures AsksForPlan(link.wire.sent[|old(link.wire.sent)|..], link.unit, PLAN)
    ensures Justified(Concat(runs), link.wire.sent[|old(link.wire.sent)|..], link.unit)
    // every block of the plan is shown in order with all that its calls brought
    ensures BlocksShown(report, BlocksOf(PLAN, runs))
    // the rest of the report tells exactly the words that came
    ensures ReportOfDevice(report, KnownOf(BlocksOf(PLAN, runs)))
    // whatever the network did: replies that are honest about a device give a report of that device
    ensures forall d | AllHonest(link.wire.sent[|old(link.wire.sent)|..], d) :: ReportOfDevice(report, d)
  {
    ghost var before := link.wire.sent;
    PlanOfTheScan();
    hide ReportOfDevice, AllHonest, Justified, PlanRuns, BlocksOf, Concat, KnownOf, SerialOf, AsksForPlan, PlanCalls,
      PlanFits, ReportOf, BlocksShown;
    var blocks, known, serial;
    blocks, known, serial, runs := ReadPlan(link, PLAN);
    report := BuildReport(blocks, known, serial, link.unit);
    ReportShowsBlocks(blocks, link.unit);
    ReportOfKnown(runs, link.unit);
    forall d | AllHonest(link.wire.sent[|before|..], d) ensures ReportOfDevice(report, d) {
      ReportIsOfDevice(runs, link.wire.sent[|before|..], link.unit, d);
    }
  }
}
