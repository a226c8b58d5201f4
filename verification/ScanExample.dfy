/** Two whole scans that the report tells apart: matching devices whose serials start differently. */
module ScanExample {
  import opened Text
  import opened Modbus
  import opened ModbusLink
  import opened BlockRead
  import opened BlockProofs
  import opened Inverter
  import opened RegisterMap
  import opened Scan
  import opened ScanProofs

  const NO_CODES: Codes := k => 0
  const NO_SILENCES: Silences := k => None

  // -------------------------------------------------- a device that answers every block

  ghost predicate ServesPlan(d: Device, plan: seq<(nat, nat)>) {
    PlanFits(plan) && forall i | 0 <= i < |plan| :: plan[i].0 < 0x1000 && Serves(d, plan[i].0, plan[i].1)
  }

  function AnsweredCall(d: Device, block: (nat, nat)): Call
    requires Serves(d, block.0, block.1)
  {
    Call(block.0, block.1, Words(WordsOf(d, block.0, block.1)))
  }

  /** The request of a block with transaction id 1, and the device's reply to it. */
  function AnsweredFrame(d: Device, block: (nat, nat)): Sent
    requires Serves(d, block.0, block.1) && 1 <= block.1 <= MAX_REGISTERS_PER_READ && block.0 < 0x1000
  {
    var built := BuildRequest(1, 1, READ_HOLDING_REGISTERS, block.0, block.1);
    Sent(built.bytes, EncodeReply(1, 1, WordsOf(d, block.0, block.1)))
  }

  lemma FrameCarriesCall(d: Device, block: (nat, nat))
    requires Serves(d, block.0, block.1) && 1 <= block.1 <= MAX_REGISTERS_PER_READ && block.0 < 0x1000
    ensures Carries(AnsweredFrame(d, block), 1, AnsweredCall(d, block)) && Obeys(AnsweredFrame(d, block), d)
  {
    var words := WordsOf(d, block.0, block.1);
    RequestRoundTrip(1, 1, READ_HOLDING_REGISTERS, block.0, block.1);
    EncodedWordsAreRead(1, 1, words);
    hide EncodeReply, Interpret, BuildRequest, ParseRequest, WordsOf, ExceptionReply;
  }

  ghost function AnsweredRuns(d: Device, plan: seq<(nat, nat)>): (runs: seq<seq<Call>>)
    requires ServesPlan(d, plan)
    ensures |runs| == |plan| && forall i | 0 <= i < |plan| :: runs[i] == [AnsweredCall(d, plan[i])]
  {
    seq(|plan|, i requires 0 <= i < |plan| => [AnsweredCall(d, plan[i])])
  }

  ghost function AnsweredSent(d: Device, plan: seq<(nat, nat)>): (sent: seq<Sent>)
    requires ServesPlan(d, plan)
    ensures |sent| == |plan| && forall i | 0 <= i < |plan| :: sent[i] == AnsweredFrame(d, plan[i])
  {
    seq(|plan|, i requires 0 <= i < |plan| => AnsweredFrame(d, plan[i]))
  }

  lemma {:induction false} ConcatOfSingles(runs: seq<seq<Call>>)
    requires forall i | 0 <= i < |runs| :: |runs[i]| == 1
    ensures |Concat(runs)| == |runs| && forall i | 0 <= i < |runs| :: Concat(runs)[i] == runs[i][0]
    decreases |runs|
  {
    if runs != [] {
      ConcatOfSingles(runs[..|runs| - 1]);
    }
  }

  /** A device that serves every block of a plan is scanned with one request a block. */
  lemma AnsweredScan(d: Device, plan: seq<(nat, nat)>)
    requires ServesPlan(d, plan)
    ensures var runs, sent := AnsweredRuns(d, plan), AnsweredSent(d, plan);
      && PlanRuns(plan, runs) && Justified(Concat(runs), sent, 1)
      && AllObey(sent, d) && EndsAs(Concat(runs), NO_CODES, NO_SILENCES)
  {
    AnsweredPlan(d, plan);
    AnsweredWire(d, plan);
  }

  lemma AnsweredPlan(d: Device, plan: seq<(nat, nat)>)
    requires ServesPlan(d, plan)
    ensures PlanRuns(plan, AnsweredRuns(d, plan))
    ensures EndsAs(Concat(AnsweredRuns(d, plan)), NO_CODES, NO_SILENCES)
  {
    var runs := AnsweredRuns(d, plan);
    ConcatOfSingles(runs);
    hide AnsweredRuns, Concat;
    forall i | 0 <= i < |plan| ensures BlockRun(plan[i].0, plan[i].1, runs[i]) {
      assert runs[i][0] == AnsweredCall(d, plan[i]);
    }
  }

  lemma AnsweredWire(d: Device, plan: seq<(nat, nat)>)
    requires ServesPlan(d, plan)
    ensures Justified(Concat(AnsweredRuns(d, plan)), AnsweredSent(d, plan), 1) && AllObey(AnsweredSent(d, plan), d)
  {
    var runs, sent := AnsweredRuns(d, plan), AnsweredSent(d, plan);
    ConcatOfSingles(runs);
    hide AnsweredRuns, AnsweredSent, AnsweredFrame, AnsweredCall, Carries, Obeys, Concat, Serves;
    var run := Concat(runs);
    forall i | 0 <= i < |run| ensures exists j | 0 <= j < |sent| :: Carries(sent[j], 1, run[i]) {
      FrameCarriesCall(d, plan[i]);
      assert Carries(sent[i], 1, run[i]);
    }
    forall i | 0 <= i < |sent| ensures Obeys(sent[i], d) {
      FrameCarriesCall(d, plan[i]);
    }
  }

  // ---------------------------------------------------------------- two such devices

  /** A matching product whose serial is one letter pair over and over. */
  function Sample(w: word): Device {
    map register: nat | 0 <= register < 0x900 :: if 1 <= register <= 2 then 1 else if InSerial(register) then w else 0
  }

  lemma PlanIsLow()
    ensures forall i | 0 <= i < |PLAN| :: PLAN[i].0 + PLAN[i].1 <= 0x900
  {
  }

  lemma SampleServes(w: word)
    ensures ServesPlan(Sample(w), PLAN)
  {
    PlanIsLow();
    PlanOfTheScan();
    hide PlanCalls;
  }

  lemma {:induction false} StripKeepsFront(s: string)
    requires s != "" && !IsSpace(s[0])
    ensures Strip(s) != "" && Strip(s)[0] == s[0]
  {
    StripRightKeepsFront(s);
  }

  lemma {:induction false} StripRightKeepsFront(s: string)
    requires s != "" && !IsSpace(s[0])
    ensures StripRight(s) != "" && StripRight(s)[0] == s[0]
    decreases |s|
  {
    if IsSpace(s[|s| - 1]) {
      StripRightKeepsFront(s[..|s| - 1]);
    }
  }

  /** The serial of a sample starts with the first letter of its pair. */
  lemma SampleSerial(w: word)
    requires 'A' as int <= w / 0x100 <= 'Z' as int
    ensures var serial := DeviceSerial(Sample(w));
      serial.Some? && serial.value != "" && serial.value[0] == (w / 0x100) as char
  {
    var d := Sample(w);
    var words := WordsOf(d, SERIAL_OFFSET, SERIAL_REGISTER_COUNT);
    assert words[0] == w;
    assert WordText(words)[0] == (w / 0x100) as char;
    hide WordText, Strip;
    StripKeepsFront(WordText(words));
  }

  lemma {:induction false} KnownHas(blocks: seq<Block>, k: nat, register: nat)
    requires k < |blocks| && register in WordMap(blocks[k])
    ensures register in KnownOf(blocks)
    decreases |blocks|
  {
    if k < |blocks| - 1 {
      KnownHas(blocks[..|blocks| - 1], k, register);
    }
  }

  /** The scan of a sample finds the supported product and its serial. */
  lemma SampleScan(w: word)
    ensures ServesPlan(Sample(w), PLAN)
    ensures var d := Sample(w);
      ScanOf(AnsweredRuns(d, PLAN), AnsweredSent(d, PLAN), 1, d, NO_CODES, NO_SILENCES)
    ensures var blocks := BlocksOf(PLAN, AnsweredRuns(Sample(w), PLAN));
      Matches(KnownOf(blocks)) && SerialAnswered(blocks)
  {
    var d := Sample(w);
    SampleServes(w);
    AnsweredScan(d, PLAN);
    var runs, sent := AnsweredRuns(d, PLAN), AnsweredSent(d, PLAN);
    FirstBlocks();
    ObedientIsHonest(sent, d);
    hide AnsweredSent, Justified, AllObey, AllHonest, EndsAs, Concat, KnownOf;
    BlocksAreTruthful(PLAN, runs, sent, 1, d);
    var blocks := BlocksOf(PLAN, runs);
    KnownIsWithin(blocks, d);
    AnsweredBlock(d, PLAN[0]);
    AnsweredBlock(d, PLAN[1]);
    assert blocks[0] == BlockOf(0, 3, runs[0]) && blocks[1] == BlockOf(SERIAL_OFFSET, SERIAL_REGISTER_COUNT, runs[1]);
    assert d[1] == 1 && d[2] == 1;
    hide BlocksOf, AnsweredRuns, BlockOf, PlanRuns, Sample;
    KnownHas(blocks, 0, 1);
    KnownHas(blocks, 0, 2);
  }

  lemma FirstBlocks()
    ensures |PLAN| > 1 && PLAN[0] == (0, 3) && PLAN[1] == (SERIAL_OFFSET, SERIAL_REGISTER_COUNT)
  {
  }

  lemma AnsweredBlock(d: Device, block: (nat, nat))
    requires Serves(d, block.0, block.1)
    ensures var b := BlockOf(block.0, block.1, [AnsweredCall(d, block)]);
      && b.offset == block.0 && |b.words| == block.1 && (forall i | 0 <= i < |b.words| :: b.words[i].Some?)
      && (forall register: nat | block.0 <= register < block.0 + block.1 :: register in WordMap(b))
  {
    var b := BlockOf(block.0, block.1, [AnsweredCall(d, block)]);
    forall register: nat | block.0 <= register < block.0 + block.1 ensures HasWord(b, register) {
      assert b.words[register - block.0].Some?;
    }
  }

  lemma SamplesDiffer(v: word, w: word)
    ensures DiffersWithin(Sample(v), Sample(w), SERIAL_OFFSET, SERIAL_END)
  {
    assert Sample(v).Keys == Sample(w).Keys;
  }

  lemma SampleSerialsDiffer(v: word, w: word)
    requires 'A' as int <= v / 0x100 <= 'Z' as int && 'A' as int <= w / 0x100 <= 'Z' as int && v / 0x100 != w / 0x100
    ensures !LookAlike(DeviceSerial(Sample(v)), DeviceSerial(Sample(w)))
  {
    SampleSerial(v);
    SampleSerial(w);
    hide Sample, DeviceSerial;
    var s, t := DeviceSerial(Sample(v)).value, DeviceSerial(Sample(w)).value;
    if |s| == |t| && |s| > 4 {
      assert s[..4][0] == s[0] && t[..4][0] == t[0];
    }
  }

  /**
   Two devices under one pattern of refusals and silences, alike but for the serial, whose reports
   differ: any two whose serials start with different letters.
   */
  lemma ReportsCanDiffer(v: word, w: word)
    requires 'A' as int <= v / 0x100 <= 'Z' as int && 'A' as int <= w / 0x100 <= 'Z' as int && v / 0x100 != w / 0x100
    ensures ServesPlan(Sample(v), PLAN) && ServesPlan(Sample(w), PLAN)
    ensures var d, e := Sample(v), Sample(w);
      var r, s := AnsweredRuns(d, PLAN), AnsweredRuns(e, PLAN);
      && ScanOf(r, AnsweredSent(d, PLAN), 1, d, NO_CODES, NO_SILENCES)
      && ScanOf(s, AnsweredSent(e, PLAN), 1, e, NO_CODES, NO_SILENCES)
      && DiffersWithin(d, e, SERIAL_OFFSET, SERIAL_END)
      && ReportOf(BlocksOf(PLAN, r), 1) != ReportOf(BlocksOf(PLAN, s), 1)
  {
    SampleScan(v);
    SampleScan(w);
    SamplesDiffer(v, w);
    SampleSerialsDiffer(v, w);
    hide *;
    SerialStaysHidden(AnsweredRuns(Sample(v), PLAN), AnsweredRuns(Sample(w), PLAN),
                      AnsweredSent(Sample(v), PLAN), AnsweredSent(Sample(w), PLAN),
                      1, Sample(v), Sample(w), NO_CODES, NO_SILENCES);
  }
}
