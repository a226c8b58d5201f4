/** What the block read amounts to against a device, and what it lets two devices differ in. */
module BlockProofs {
  import opened Text
  import opened Modbus
  import opened ModbusLink
  import opened BlockRead
  import opened Inverter

  // ------------------------------------------------------- one register at a time

  /** What reading each register alone shows. */
  function Alone(d: Device, offset: nat, count: nat): (words: Shown)
    ensures |words| == count
    ensures forall i | 0 <= i < count :: words[i] == if offset + i in d then Some(d[offset + i]) else None
  {
    seq(count, i requires 0 <= i < count => if offset + i in d then Some(d[offset + i]) else None)
  }

  /** Every word shown is the device's word of its register. */
  predicate ShownWithin(offset: nat, words: Shown, d: Device) {
    forall i | 0 <= i < |words| && words[i].Some? :: offset + i in d && words[i].value == d[offset + i]
  }

  /** The device answers every request, and refuses one exactly when a register in it is refused. */
  ghost predicate Prompt(c: Call, d: Device) {
    && Truthful(c, d)
    && (c.outcome.Words? <==> Serves(d, c.offset, c.count))
    && (c.outcome.Words? || c.outcome.Refused?)
  }

  lemma {:induction false} NoTimeouts(run: seq<Call>)
    requires forall i | 0 <= i < |run| :: !run[i].outcome.NoAnswer?
    ensures TrailingTimeouts(run) == 0
  {
  }

  /** A fallback that is answered throughout shows each register as it is alone. */
  lemma SinglesRefine(offset: nat, count: nat, run: seq<Call>, d: Device)
    requires Singles(offset, count, run)
    requires forall i | 0 <= i < |run| :: Prompt(run[i], d)
    ensures SingleWords(count, run) == Alone(d, offset, count) && SinglesDetail(run) == NoDetail
  {
    NoTimeouts(run);
    assert run != [] ==> Prompt(run[|run| - 1], d);
    forall i | 0 <= i < count ensures SingleWord(run, i) == Alone(d, offset, count)[i] {
      assert SingleCall(run[i], offset + i) && Prompt(run[i], d);
    }
  }

  lemma WholeRefines(offset: nat, count: nat, words: seq<word>, d: Device)
    requires Prompt(Call(offset, count, Words(words)), d)
    ensures AllShown(words) == Alone(d, offset, count) && StatusOf(AllShown(words)) == Complete
    ensures Serves(d, offset, count)
  {
  }

  lemma StatusAlone(d: Device, offset: nat, count: nat)
    ensures StatusOf(Alone(d, offset, count)) ==
      (if Serves(d, offset, count) then Complete
       else if exists at :: offset <= at < offset + count && at in d then Partial else Nothing)
  {
    var words := Alone(d, offset, count);
    if !Serves(d, offset, count) {
      var at :| offset <= at < offset + count && at !in d;
      assert words[at - offset].None?;
    }
    if at :| offset <= at < offset + count && at in d {
      assert words[at - offset].Some?;
    }
  }

  lemma CallsRefine(offset: nat, count: nat, run: seq<Call>, d: Device)
    requires BlockRun(offset, count, run)
    requires forall i | 0 <= i < |run| :: Prompt(run[i], d)
    ensures var b := BlockOf(offset, count, run);
      && b.words == Alone(d, offset, count)
      && b.status == (if Serves(d, offset, count) then Complete
                      else if exists at :: offset <= at < offset + count && at in d then Partial else Nothing)
      && b.detail == NoDetail
      && (b.mode == Whole <==> Serves(d, offset, count))
  {
    assert Prompt(run[0], d) && run[0] == Call(offset, count, run[0].outcome);
    StatusAlone(d, offset, count);
    hide StatusOf, Singles, SinglesDetail, Serves, Truthful;
    if run[0].outcome.Words? {
      WholeRefines(offset, count, run[0].outcome.words, d);
    } else {
      assert forall i | 0 <= i < |run| - 1 :: run[1..][i] == run[i + 1];
      SinglesRefine(offset, count, run[1..], d);
    }
  }

  /**
   On a wire where the device answers its words, or refuses exactly when a register asked for is
   refused, and every call was answered: the block read refines reading each register alone.
   */
  lemma BlockRefinesSingles(offset: nat, count: nat, run: seq<Call>, sent: seq<Sent>, unit: int, d: Device)
    requires BlockRun(offset, count, run) && Justified(run, sent, unit) && AllObey(sent, d)
    requires forall i | 0 <= i < |run| :: run[i].outcome.Words? || run[i].outcome.Refused?
    ensures var b := BlockOf(offset, count, run);
      && b.words == Alone(d, offset, count)
      && b.status == (if Serves(d, offset, count) then Complete
                      else if exists at :: offset <= at < offset + count && at in d then Partial else Nothing)
      && b.detail == NoDetail
      && (b.mode == Whole <==> Serves(d, offset, count))
  {
    ObeyingRunIsPrompt(run, sent, unit, d);
    CallsRefine(offset, count, run, d);
  }

  lemma ObeyingRunIsPrompt(run: seq<Call>, sent: seq<Sent>, unit: int, d: Device)
    requires Justified(run, sent, unit) && AllObey(sent, d)
    requires forall i | 0 <= i < |run| :: run[i].outcome.Words? || run[i].outcome.Refused?
    ensures forall i | 0 <= i < |run| :: Prompt(run[i], d)
  {
    hide Carries, Obeys, Prompt;
    forall i | 0 <= i < |run| ensures Prompt(run[i], d) {
      var j :| 0 <= j < |sent| && Carries(sent[j], unit, run[i]);
      ObeyingCall(sent[j], unit, run[i], d);
      ReplyIsPrompt(run[i], d);
    }
  }

  lemma ReplyIsPrompt(c: Call, d: Device)
    requires if Serves(d, c.offset, c.count) then c.outcome == Words(WordsOf(d, c.offset, c.count))
      else c.outcome.Refused?
    ensures Prompt(c, d)
  {
  }

  lemma TruthfulWords(offset: nat, count: nat, run: seq<Call>, d: Device)
    requires BlockRun(offset, count, run) && AllTruthful(run, d)
    ensures var words := BlockOf(offset, count, run).words;
      |words| == count && ShownWithin(offset, words, d)
  {
    var b := BlockOf(offset, count, run);
    assert Truthful(run[0], d);
    if b.mode == Single {
      var singles := run[1..];
      forall i | 0 <= i < count && b.words[i].Some?
        ensures offset + i in d && b.words[i].value == d[offset + i]
      {
        assert singles[i] == run[i + 1] && SingleCall(singles[i], offset + i) && Truthful(singles[i], d);
      }
    }
  }

  /**
   On a wire whose device sends nothing but its own words, exceptions or no reply at all, with any
   delays, resets and broken links, every word shown is the device's word of that register.
   */
  lemma EveryWordIsRight(offset: nat, count: nat, run: seq<Call>, sent: seq<Sent>, unit: int, d: Device)
    requires BlockRun(offset, count, run) && Justified(run, sent, unit) && AllHonest(sent, d)
    ensures var words := BlockOf(offset, count, run).words;
      |words| == count && ShownWithin(offset, words, d)
  {
    HonestRun(run, sent, unit, d);
    TruthfulWords(offset, count, run, d);
  }

  /** The fallback's last five calls up to this one brought no answer; the first call is the whole block's. */
  ghost predicate FiveSilent(run: seq<Call>, i: int) {
    5 <= i < |run| && forall j | i - 4 <= j <= i :: run[j].outcome.NoAnswer?
  }

  lemma {:induction false} TrailingAtLeast(run: seq<Call>, k: nat)
    requires k <= |run| && forall i | |run| - k <= i < |run| :: run[i].outcome.NoAnswer?
    ensures TrailingTimeouts(run) >= k
  {
    if k > 0 {
      TrailingAtLeast(run[..|run| - 1], k - 1);
    }
  }

  lemma FiveSilentIff(run: seq<Call>, i: nat)
    requires 1 <= i < |run|
    ensures TrailingTimeouts(run[1..i + 1]) >= 5 <==> FiveSilent(run, i)
  {
    var singles := run[1..i + 1];
    assert forall j | 0 <= j < |singles| :: singles[j] == run[j + 1];
    if TrailingTimeouts(singles) >= 5 {
      assert forall j | i - 4 <= j <= i :: run[j] == singles[j - 1];
    }
    if FiveSilent(run, i) {
      TrailingAtLeast(singles, 5);
    }
  }

  /** The calls of a fallback: register by register, up to a broken link or the fifth timeout in a row. */
  ghost predicate OneByOne(offset: nat, count: nat, run: seq<Call>) {
    && 1 <= |run| <= 1 + count
    && (forall i | 1 <= i < |run| :: run[i].offset == offset + i - 1 && run[i].count == 1)
    && (forall i | 1 <= i < |run| - 1 :: !run[i].outcome.Broken? && !FiveSilent(run, i))
    && (|run| < 1 + count ==> |run| > 1 && (run[|run| - 1].outcome.Broken? || FiveSilent(run, |run| - 1)))
  }

  lemma SinglesAreOneByOne(offset: nat, count: nat, run: seq<Call>)
    requires run != [] && Singles(offset, count, run[1..])
    ensures OneByOne(offset, count, run)
  {
    var singles := run[1..];
    forall i | 1 <= i < |run| ensures run[i].offset == offset + i - 1 && run[i].count == 1 {
      assert run[i] == singles[i - 1] && SingleCall(singles[i - 1], offset + (i - 1));
    }
    forall i | 1 <= i < |run| - 1 ensures !run[i].outcome.Broken? && !FiveSilent(run, i) {
      assert singles[..i] == run[1..i + 1] && !Stops(singles[..i]);
      FiveSilentIff(run, i);
    }
    if 1 < |run| {
      assert singles == run[1..|run| - 1 + 1];
      FiveSilentIff(run, |run| - 1);
    }
  }

  /** What a block says of its words, and how many of them are there. */
  ghost predicate StatusFits(status: Status, words: Shown) {
    && (status == Complete <==> forall i | 0 <= i < |words| :: words[i].Some?)
    && (status == Nothing <==> words != [] && forall i | 0 <= i < |words| :: words[i].None?)
    && status != Error
  }

  lemma StatusIsFit(words: Shown)
    ensures StatusFits(StatusOf(words), words)
  {
  }

  lemma NotFive(run: seq<Call>)
    ensures |run| <= 1 ==> !FiveSilent(run, |run| - 1) && TrailingTimeouts([]) == 0
  {
  }

  /** The whole block first; its words when they came, none when the link broke, else one register at a time. */
  lemma BlockIsItsCalls(offset: nat, count: nat, run: seq<Call>)
    requires BlockRun(offset, count, run)
    ensures var b := BlockOf(offset, count, run);
      && run[0].offset == offset && run[0].count == count && |b.words| == count
      && match run[0].outcome
         case Words(words) =>
           && run == [run[0]] && b == Block(offset, count, BlockOk, Whole, Complete, NoDetail, b.words)
           && |words| == count && forall i | 0 <= i < count :: b.words[i] == Some(words[i])
         case Broken(error) =>
           && run == [run[0]] && b == Block(offset, count, BlockError, Whole, Error, Stopped(error), b.words)
           && forall i | 0 <= i < count :: b.words[i] == None
         case BadCount => false
         case other =>
           && OneByOne(offset, count, run)
           && b.mode == Single && b.result == (if other.Refused? then BlockRefused(other.code) else BlockTimeout)
           && (forall i | 0 <= i < count ::
                 b.words[i] == if i + 1 < |run| && run[i + 1].outcome.Words? then Some(run[i + 1].outcome.words[0])
                               else None)
           && StatusFits(b.status, b.words)
           && b.detail == (if |run| > 1 && run[|run| - 1].outcome.Broken? then Stopped(run[|run| - 1].outcome.error)
                           else if FiveSilent(run, |run| - 1) then RepeatedTimeouts else NoDetail)
  {
    hide OneByOne, FiveSilent, TrailingTimeouts, StatusOf, StatusFits;
    if run[0].outcome.Refused? || run[0].outcome.NoAnswer? {
      var singles := run[1..];
      StatusIsFit(SingleWords(count, singles));
      NotFive(run);
      SinglesAreOneByOne(offset, count, run);
      assert forall i | 1 <= i < |run| :: run[i] == singles[i - 1] && SingleCall(singles[i - 1], offset + (i - 1));
      if |run| > 1 {
        assert singles == run[1..|run| - 1 + 1];
        FiveSilentIff(run, |run| - 1);
      }
    }
  }

  /** The fallback leaves registers unread only after a broken link or five timeouts in a row. */
  lemma EarlyStop(offset: nat, count: nat, run: seq<Call>)
    requires BlockRun(offset, count, run) && BlockOf(offset, count, run).mode == Single
    requires |run| < 1 + count
    ensures run[|run| - 1].outcome.Broken?
         || (|run| >= 6 && forall i | |run| - 5 <= i < |run| :: run[i].outcome.NoAnswer?)
    ensures BlockOf(offset, count, run).detail != NoDetail
  {
    var singles := run[1..];
    assert singles[|singles| - 1] == run[|run| - 1];
    if !run[|run| - 1].outcome.Broken? {
      forall i | |run| - 5 <= i < |run| ensures run[i].outcome.NoAnswer? {
        assert run[i] == singles[i - 1];
      }
    }
  }

  // ---------------------------------------------------- two devices, one pattern

  /** The same outcome, words in the hidden registers apart. */
  ghost predicate SameOutcome(o: Outcome, p: Outcome, offset: nat, lo: nat, hi: nat) {
    if o.Words? && p.Words? then
      && |o.words| == |p.words|
      && forall i | 0 <= i < |o.words| && !(lo <= offset + i < hi) :: o.words[i] == p.words[i]
    else o == p
  }

  ghost predicate SameCall(c: Call, e: Call, lo: nat, hi: nat) {
    c.offset == e.offset && c.count == e.count && SameOutcome(c.outcome, e.outcome, c.offset, lo, hi)
  }

  ghost predicate SameCalls(r: seq<Call>, s: seq<Call>, lo: nat, hi: nat) {
    |r| == |s| && forall i | 0 <= i < |r| :: SameCall(r[i], s[i], lo, hi)
  }

  /** The same words shown, hidden registers apart; what is missing is missing in both. */
  ghost predicate SameShown(v: Shown, w: Shown, offset: nat, lo: nat, hi: nat) {
    && |v| == |w|
    && forall i | 0 <= i < |v| :: (v[i].Some? <==> w[i].Some?) && (lo <= offset + i < hi || v[i] == w[i])
  }

  ghost predicate SameBlock(b: Block, c: Block, lo: nat, hi: nat) {
    && b.(words := c.words) == c
    && SameShown(b.words, c.words, b.offset, lo, hi)
  }

  lemma {:induction false} SameTimeouts(r: seq<Call>, s: seq<Call>, lo: nat, hi: nat)
    requires SameCalls(r, s, lo, hi)
    ensures TrailingTimeouts(r) == TrailingTimeouts(s) && Stops(r) == Stops(s)
    decreases |r|
  {
    if r != [] {
      var n := |r| - 1;
      assert SameCall(r[n], s[n], lo, hi);
      if r[n].outcome.NoAnswer? {
        SamePrefix(r, s, n, lo, hi);
        SameTimeouts(r[..n], s[..n], lo, hi);
      }
    }
  }

  lemma SamePrefix(r: seq<Call>, s: seq<Call>, n: nat, lo: nat, hi: nat)
    requires n <= |r| && n <= |s| && forall i | 0 <= i < n :: SameCall(r[i], s[i], lo, hi)
    ensures SameCalls(r[..n], s[..n], lo, hi)
  {
  }

  lemma {:induction false} SameAnswered(v: Shown, w: Shown)
    requires |v| == |w| && forall i | 0 <= i < |v| :: v[i].Some? <==> w[i].Some?
    ensures Answered(v) == Answered(w)
    decreases |v|
  {
    if v != [] {
      assert forall i | 0 <= i < |v| - 1 :: v[1..][i] == v[i + 1] && w[1..][i] == w[i + 1];
      SameAnswered(v[1..], w[1..]);
    }
  }

  lemma SameSingles(offset: nat, count: nat, r: seq<Call>, s: seq<Call>, lo: nat, hi: nat)
    requires SinglesSoFar(offset, count, r) && SameCalls(r, s, lo, hi)
    ensures SameShown(SingleWords(count, r), SingleWords(count, s), offset, lo, hi)
    ensures StatusOf(SingleWords(count, r)) == StatusOf(SingleWords(count, s))
    ensures SinglesDetail(r) == SinglesDetail(s)
  {
    var v, w := SingleWords(count, r), SingleWords(count, s);
    hide TrailingTimeouts, Stops, Answered;
    forall i | 0 <= i < count
      ensures (v[i].Some? <==> w[i].Some?) && (lo <= offset + i < hi || v[i] == w[i])
    {
      if i < |r| {
        assert SingleCall(r[i], offset + i) && SameCall(r[i], s[i], lo, hi);
      }
    }
    SameAnswered(v, w);
    SameTimeouts(r, s, lo, hi);
    if r != [] {
      assert SameCall(r[|r| - 1], s[|r| - 1], lo, hi);
    }
  }

  /** Calls that differ in hidden words only yield blocks that differ in hidden words only. */
  lemma SameCallsSameBlock(offset: nat, count: nat, r: seq<Call>, s: seq<Call>, lo: nat, hi: nat)
    requires BlockRun(offset, count, r) && BlockRun(offset, count, s) && SameCalls(r, s, lo, hi)
    ensures SameBlock(BlockOf(offset, count, r), BlockOf(offset, count, s), lo, hi)
  {
    assert SameCall(r[0], s[0], lo, hi);
    if !r[0].outcome.Words? && !r[0].outcome.Broken? {
      assert forall i | 0 <= i < |r| - 1 :: r[1..][i] == r[i + 1] && s[1..][i] == s[i + 1];
      SameSingles(offset, count, r[1..], s[1..], lo, hi);
    }
  }

  ghost predicate SameAnswers(a: Answers, b: Answers, lo: nat, hi: nat) {
    forall k: nat, offset: nat, count: nat ::
      SameOutcome(a(k, offset, count), b(k, offset, count), offset, lo, hi)
  }

  /** The shorter of two fallbacks would have stopped the longer one. */
  lemma NoShorterSingles(offset: nat, count: nat, r: seq<Call>, s: seq<Call>, at: nat,
                         a: Answers, b: Answers, lo: nat, hi: nat)
    requires Singles(offset, count, r) && Singles(offset, count, s)
    requires Follows(r, at, a) && Follows(s, at, b) && SameAnswers(a, b, lo, hi)
    ensures |r| >= |s|
    ensures |r| == |s| ==> SameCalls(r, s, lo, hi)
  {
    var n := if |r| < |s| then |r| else |s|;
    assert n < |s| ==> !Stops(s[..n]);
    forall i | 0 <= i < n ensures SameCall(r[i], s[i], lo, hi) {
      assert SingleCall(r[i], offset + i) && SingleCall(s[i], offset + i);
      assert SameOutcome(a(at + i, offset + i, 1), b(at + i, offset + i, 1), offset + i, lo, hi);
    }
    SamePrefix(r, s, n, lo, hi);
    assert r[..|r|] == r;
    SameTimeouts(r[..n], s[..n], lo, hi);
  }

  lemma SameAnswersSymmetric(a: Answers, b: Answers, lo: nat, hi: nat)
    requires SameAnswers(a, b, lo, hi)
    ensures SameAnswers(b, a, lo, hi)
  {
    forall k: nat, offset: nat, count: nat
      ensures SameOutcome(b(k, offset, count), a(k, offset, count), offset, lo, hi)
    {
      assert SameOutcome(a(k, offset, count), b(k, offset, count), offset, lo, hi);
    }
  }

  /** Two devices that differ in hidden registers only, met from one position on, see the same calls. */
  lemma SameAnswersSameCalls(offset: nat, count: nat, r: seq<Call>, s: seq<Call>, at: nat,
                             a: Answers, b: Answers, lo: nat, hi: nat)
    requires BlockRun(offset, count, r) && BlockRun(offset, count, s)
    requires Follows(r, at, a) && Follows(s, at, b) && SameAnswers(a, b, lo, hi)
    ensures SameCalls(r, s, lo, hi)
  {
    FirstCalls(offset, count, r, s, at, a, b, lo, hi);
    hide SameOutcome, SameAnswers, Follows, Singles, SameCalls;
    if !r[0].outcome.Words? && !r[0].outcome.Broken? {
      var t, u := r[1..], s[1..];
      FollowsTail(r, at, a);
      FollowsTail(s, at, b);
      SameAnswersSymmetric(a, b, lo, hi);
      NoShorterSingles(offset, count, t, u, at + 1, a, b, lo, hi);
      NoShorterSingles(offset, count, u, t, at + 1, b, a, lo, hi);
      SameCallsAfter(r, s, lo, hi);
    } else {
      SameCallsAfter(r, s, lo, hi);
      assert r[1..] == [] && s[1..] == [];
      NoCallsSame(lo, hi);
    }
  }

  lemma FirstCalls(offset: nat, count: nat, r: seq<Call>, s: seq<Call>, at: nat,
                   a: Answers, b: Answers, lo: nat, hi: nat)
    requires r != [] && s != [] && r[0].offset == s[0].offset == offset && r[0].count == s[0].count == count
    requires Follows(r, at, a) && Follows(s, at, b) && SameAnswers(a, b, lo, hi)
    ensures SameCall(r[0], s[0], lo, hi)
    ensures r[0].outcome.Words? == s[0].outcome.Words? && r[0].outcome.Broken? == s[0].outcome.Broken?
  {
    assert SameOutcome(a(at, offset, count), b(at, offset, count), offset, lo, hi);
    assert r[0].outcome == a(at + 0, offset, count) && s[0].outcome == b(at + 0, offset, count);
  }

  lemma FollowsTail(r: seq<Call>, at: nat, a: Answers)
    requires r != [] && Follows(r, at, a)
    ensures Follows(r[1..], at + 1, a)
  {
    var t := r[1..];
    forall i | 0 <= i < |t| ensures t[i].outcome == a(at + 1 + i, t[i].offset, t[i].count) {
      assert t[i] == r[i + 1] && at + (i + 1) == at + 1 + i;
    }
  }

  lemma NoCallsSame(lo: nat, hi: nat)
    ensures SameCalls([], [], lo, hi)
  {
  }

  lemma SameCallsAfter(r: seq<Call>, s: seq<Call>, lo: nat, hi: nat)
    requires r != [] && s != [] && SameCall(r[0], s[0], lo, hi)
    ensures SameCalls(r[1..], s[1..], lo, hi) ==> SameCalls(r, s, lo, hi)
  {
    if SameCalls(r[1..], s[1..], lo, hi) {
      forall i | 0 <= i < |r| ensures SameCall(r[i], s[i], lo, hi) {
        if i > 0 {
          assert r[1..][i - 1] == r[i] && s[1..][i - 1] == s[i];
        }
      }
    }
  }
}
