/**
 The inverter at the other end of the wire: what its replies must be for a scan to be right, and
 how that carries over to the calls a scan makes.
 */
module Inverter {
  import opened Text
  import opened Modbus
  import opened ModbusLink

  /** The registers a device answers; it refuses every other one. */
  type Device = map<nat, word>

  predicate Serves(d: Device, offset: nat, count: nat) {
    forall at | offset <= at < offset + count :: at in d
  }

  function WordsOf(d: Device, offset: nat, count: nat): (words: seq<word>)
    requires Serves(d, offset, count)
    ensures |words| == count && forall i | 0 <= i < count :: words[i] == d[offset + i]
  {
    seq(count, i requires 0 <= i < count => d[offset + i])
  }

  /** The reply carries the device's words of the registers asked for. */
  predicate HoldsWords(reply: seq<byte>, r: Request, d: Device) {
    && r.address >= MODBUS_BASE_ADDRESS && r.count <= MAX_REGISTERS_PER_READ && |reply| > 6
    && Serves(d, r.address - MODBUS_BASE_ADDRESS, r.count)
    && reply == EncodeReply(r.tid, reply[6], WordsOf(d, r.address - MODBUS_BASE_ADDRESS, r.count))
  }

  predicate IsException(reply: seq<byte>, r: Request) {
    9 <= |reply| <= 260 && reply == ExceptionReply(r.tid, reply[6], reply[8], reply[9..])
  }

  // ------------------------------------------------------------------- honest replies

  /** No reply, an exception, or the device's own words: nothing else is promised of the device. */
  predicate Honest(s: Sent, d: Device) {
    s.reply == [] ||
    match ParseRequest(s.frame)
    case None => false
    case Some(r) => IsException(s.reply, r) || HoldsWords(s.reply, r, d)
  }

  ghost predicate AllHonest(sent: seq<Sent>, d: Device) {
    forall i | 0 <= i < |sent| :: Honest(sent[i], d)
  }

  /** A call carries no word the device does not hold there. */
  ghost predicate Truthful(c: Call, d: Device) {
    c.outcome.Words? ==>
      && |c.outcome.words| == c.count
      && forall i | 0 <= i < c.count :: c.offset + i in d && c.outcome.words[i] == d[c.offset + i]
  }

  ghost predicate AllTruthful(run: seq<Call>, d: Device) {
    forall i | 0 <= i < |run| :: Truthful(run[i], d)
  }

  lemma HonestCall(s: Sent, unit: int, c: Call, d: Device)
    requires Carries(s, unit, c) && Honest(s, d)
    ensures Truthful(c, d)
  {
    hide EncodeReply, ExceptionReply, Interpret, IsFrame;
    var r := ParseRequest(s.frame).value;
    if s.reply == [] {
      assert IsFrame(s.reply);
      NoFrame();
    } else if IsException(s.reply, r) {
      ExceptionIsRefused(r.tid, s.reply[6], s.reply[8], s.reply[9..], c.count);
    } else {
      EncodedWordsAreRead(r.tid, s.reply[6], WordsOf(d, c.offset, c.count));
    }
  }

  lemma NoFrame()
    ensures !IsFrame([])
  {
  }

  /** Over any run with honest replies, delays, resets and broken links no call carries a wrong word. */
  lemma HonestRun(run: seq<Call>, sent: seq<Sent>, unit: int, d: Device)
    requires Justified(run, sent, unit) && AllHonest(sent, d)
    ensures AllTruthful(run, d)
  {
    forall i | 0 <= i < |run| ensures Truthful(run[i], d) {
      if run[i].outcome.Words? {
        var j :| 0 <= j < |sent| && Carries(sent[j], unit, run[i]);
        HonestCall(sent[j], unit, run[i], d);
      }
    }
  }

  // ----------------------------------------------------------------- obedient replies

  /** No reply, or the device's words, or a refusal exactly when a register asked for is refused. */
  predicate Obeys(s: Sent, d: Device) {
    s.reply == [] ||
    match ParseRequest(s.frame)
    case None => false
    case Some(r) =>
      && r.address >= MODBUS_BASE_ADDRESS
      && if Serves(d, r.address - MODBUS_BASE_ADDRESS, r.count) then HoldsWords(s.reply, r, d)
         else IsException(s.reply, r)
  }

  ghost predicate AllObey(sent: seq<Sent>, d: Device) {
    forall i | 0 <= i < |sent| :: Obeys(sent[i], d)
  }

  lemma ObedientIsHonest(sent: seq<Sent>, d: Device)
    requires AllObey(sent, d)
    ensures AllHonest(sent, d)
  {
    hide HoldsWords, IsException;
    forall i | 0 <= i < |sent| ensures Honest(sent[i], d) {
      assert Obeys(sent[i], d);
    }
  }

  lemma ObeyingCall(s: Sent, unit: int, c: Call, d: Device)
    requires Carries(s, unit, c) && Obeys(s, d)
    ensures if Serves(d, c.offset, c.count) then c.outcome == Words(WordsOf(d, c.offset, c.count))
      else c.outcome.Refused?
  {
    hide EncodeReply, ExceptionReply, Interpret, IsFrame;
    var r := ParseRequest(s.frame).value;
    if s.reply == [] {
      assert IsFrame(s.reply);
      NoFrame();
    } else if Serves(d, c.offset, c.count) {
      EncodedWordsAreRead(r.tid, s.reply[6], WordsOf(d, c.offset, c.count));
    } else {
      ExceptionIsRefused(r.tid, s.reply[6], s.reply[8], s.reply[9..], c.count);
    }
  }

  // ---------------------------------------------------------- a pattern of refusals and silences

  /** The exception code of a refusal, by the position of the call in the run. */
  type Codes = nat -> byte

  /** How the call at a position ends when it brings no answer; `None` where one comes. */
  type Silences = nat -> Option<Outcome>

  /** The calls end in the pattern given. */
  ghost predicate EndsAs(run: seq<Call>, codes: Codes, silences: Silences) {
    forall k | 0 <= k < |run| ::
      match run[k].outcome
      case Words(_) => silences(k) == None
      case Refused(code) => silences(k) == None && codes(k) == code
      case other => silences(k) == Some(other)
  }

  /** The outcome of a request by the position of its call. */
  type Answers = (nat, nat, nat) -> Outcome

  function AnswersOf(d: Device, codes: Codes, silences: Silences): Answers {
    (k: nat, offset: nat, count: nat) =>
      if silences(k).Some? then silences(k).value
      else if Serves(d, offset, count) then Words(WordsOf(d, offset, count))
      else Refused(codes(k))
  }

  /** From position `at` on, the outcomes of the run are these. */
  ghost predicate Follows(run: seq<Call>, at: nat, a: Answers) {
    forall i | 0 <= i < |run| :: run[i].outcome == a(at + i, run[i].offset, run[i].count)
  }

  /** Over any run with obedient replies the outcomes are the device's answers, in the pattern of the run. */
  lemma ObeyingRun(run: seq<Call>, sent: seq<Sent>, unit: int, d: Device, codes: Codes, silences: Silences)
    requires Justified(run, sent, unit) && AllObey(sent, d) && EndsAs(run, codes, silences)
    ensures Follows(run, 0, AnswersOf(d, codes, silences))
  {
    forall k | 0 <= k < |run|
      ensures run[k].outcome == AnswersOf(d, codes, silences)(0 + k, run[k].offset, run[k].count)
    {
      if run[k].outcome.Words? || run[k].outcome.Refused? {
        var j :| 0 <= j < |sent| && Carries(sent[j], unit, run[k]);
        ObeyingCall(sent[j], unit, run[k], d);
      }
    }
  }
}
