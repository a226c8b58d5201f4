/**
 Reading one block of registers: whole first, and register by register when the
 device refuses it or stays silent.
 */
module BlockRead {
  import opened Text
  import opened Modbus
  import opened ModbusLink

  const FALLBACK_TIMEOUT_LIMIT := 5

  datatype BlockResult = BlockOk | BlockRefused(code: byte) | BlockTimeout | BlockError

  datatype ReadMode = Whole | Single

  datatype Status = Complete | Partial | Nothing | Error

  datatype Detail = NoDetail | RepeatedTimeouts | Stopped(error: ScanError)

  type Shown = seq<Option<word>>

  datatype Block = Block(offset: nat, count: nat, result: BlockResult, mode: ReadMode, status: Status, detail: Detail,
                         words: Shown)

  function Answered(words: Shown): (n: nat)
    ensures n <= |words|
    ensures n == |words| <==> forall i | 0 <= i < |words| :: words[i].Some?
    ensures n == 0 <==> forall i | 0 <= i < |words| :: words[i].None?
  {
    if words == [] then 0
    else
      var rest := Answered(words[1..]);
      assert forall i | 0 <= i < |words[1..]| :: words[1..][i] == words[i + 1];
      if words[0].Some? then 1 + rest else rest
  }

  function StatusOf(words: Shown): Status {
    if Answered(words) == |words| then Complete else if Answered(words) > 0 then Partial else Nothing
  }

  // ------------------------------------------------------------- the calls made

  /** How many timeouts in a row the calls end with. */
  function TrailingTimeouts(run: seq<Call>): (n: nat)
    ensures n <= |run|
    ensures forall i | |run| - n <= i < |run| :: run[i].outcome.NoAnswer?
  {
    if run == [] || !run[|run| - 1].outcome.NoAnswer? then 0
    else 1 + TrailingTimeouts(run[..|run| - 1])
  }

  /** The fallback gives up after these calls. */
  predicate Stops(run: seq<Call>) {
    run != [] && (run[|run| - 1].outcome.Broken? || TrailingTimeouts(run) >= FALLBACK_TIMEOUT_LIMIT)
  }

  predicate SingleCall(c: Call, offset: nat) {
    && c.offset == offset && c.count == 1 && !c.outcome.BadCount?
    && (c.outcome.Words? ==> |c.outcome.words| == 1)
  }

  /** A beginning of the fallback: one register per call, in order, not given up yet before the last call. */
  ghost predicate SinglesSoFar(offset: nat, count: nat, run: seq<Call>) {
    && |run| <= count
    && (forall i | 0 <= i < |run| :: SingleCall(run[i], offset + i))
    && (forall n | 0 <= n < |run| :: !Stops(run[..n]))
  }

  /** All calls of a finished fallback. */
  ghost predicate Singles(offset: nat, count: nat, run: seq<Call>) {
    SinglesSoFar(offset, count, run) && (|run| == count || Stops(run))
  }

  /** All calls one block read makes. */
  ghost predicate BlockRun(offset: nat, count: nat, run: seq<Call>) {
    && run != []
    && run[0].offset == offset && run[0].count == count
    && match run[0].outcome
       case Words(words) => |run| == 1 && |words| == count
       case Broken(_) => |run| == 1
       case BadCount => false
       case _ => Singles(offset, count, run[1..])
  }

  // ------------------------------------------------------------ what they yield

  function SingleWord(run: seq<Call>, i: nat): Option<word> {
    if i < |run| && run[i].outcome.Words? && run[i].outcome.words != []
    then Some(run[i].outcome.words[0]) else None
  }

  function SingleWords(count: nat, run: seq<Call>): (words: Shown)
    ensures |words| == count
    ensures forall i | 0 <= i < count :: words[i] == SingleWord(run, i)
  {
    seq(count, i requires 0 <= i < count => SingleWord(run, i))
  }

  function SinglesDetail(run: seq<Call>): Detail {
    if run != [] && run[|run| - 1].outcome.Broken? then Stopped(run[|run| - 1].outcome.error)
    else if TrailingTimeouts(run) >= FALLBACK_TIMEOUT_LIMIT then RepeatedTimeouts
    else NoDetail
  }

  function AllShown(words: seq<word>): (shown: Shown)
    ensures |shown| == |words| && forall i | 0 <= i < |words| :: shown[i] == Some(words[i])
  {
    seq(|words|, i requires 0 <= i < |words| => Some(words[i]))
  }

  function NoneShown(count: nat): (shown: Shown)
    ensures |shown| == count && forall i | 0 <= i < count :: shown[i] == None
  {
    seq(count, _ => None)
  }

  /** The block a whole run of calls amounts to. */
  function BlockOf(offset: nat, count: nat, run: seq<Call>): Block
    requires run != []
  {
    match run[0].outcome
    case Words(words) => Block(offset, count, BlockOk, Whole, Complete, NoDetail, AllShown(words))
    case Broken(error) => Block(offset, count, BlockError, Whole, Error, Stopped(error), NoneShown(count))
    case other =>
      var words := SingleWords(count, run[1..]);
      Block(offset, count,
            if other.Refused? then BlockRefused(other.code) else BlockTimeout,
            Single, StatusOf(words), SinglesDetail(run[1..]), words)
  }

  /** The fallback: one register at a time, until a broken link or five timeouts in a row. */
  method ReadSingles(link: Link, offset: nat, count: nat) returns (words: Shown, detail: Detail)
    requires link.InSync()
    modifies link, link.wire
    ensures link.InSync()
    ensures old(link.calls) <= link.calls
    ensures var run := link.calls[|old(link.calls)|..];
      Singles(offset, count, run) && words == SingleWords(count, run) && detail == SinglesDetail(run)
    ensures old(link.wire.sent) <= link.wire.sent
    ensures |link.wire.sent| <= |old(link.wire.sent)| + 2 * count
    ensures Justified(link.calls[|old(link.calls)|..], link.wire.sent[|old(link.wire.sent)|..], link.unit)
    ensures AllWithin(link.wire.sent[|old(link.wire.sent)|..], link.unit, offset, count)
  {
    hide Justified, AllWithin, RequestsFor, AnsweredByLast, SinglesSoFar, SingleWord, TrailingTimeouts, SinglesDetail,
      Interpret;
    ghost var calls0, sent0 := link.calls, link.wire.sent;
    ghost var run: seq<Call> := [];
    words := NoneShown(count);
    detail := NoDetail;
    var timeouts := 0;
    var index := 0;
    NothingAsked(link.unit, offset, count);
    NothingRead(offset, count);
    NothingJustified([], link.unit);
    assert sent0[|sent0|..] == [] && calls0 + run == calls0;
    while index < count
      invariant 0 <= index <= count && |words| == count
      invariant link.InSync() && link.calls == calls0 + run
      invariant |run| == index && SinglesSoFar(offset, count, run) && !Stops(run)
      invariant timeouts == TrailingTimeouts(run)
      invariant detail == NoDetail
      invariant forall i | 0 <= i < count :: words[i] == SingleWord(run, i)
      invariant sent0 <= link.wire.sent && |link.wire.sent| <= |sent0| + 2 * |run|
      invariant AllWithin(link.wire.sent[|sent0|..], link.unit, offset, count)
      invariant Justified(run, link.wire.sent[|sent0|..], link.unit)
      decreases count - index
    {
      ghost var sent1, before := link.wire.sent, run;
      var o := link.Read(offset + index, 1);
      run := run + [Call(offset + index, 1, o)];
      RequestsWithin(sent0, sent1, link.wire.sent, link.unit, offset + index, 1, 2, offset, count);
      JustifiedJoin(sent0, sent1, link.wire.sent, link.unit, before, [Call(offset + index, 1, o)]);
      assert calls0 + before + [Call(offset + index, 1, o)] == calls0 + run;
      OneMore(offset, count, before, run);
      match o {
        case Words(w) =>
          words := words[index := Some(w[0])];
          timeouts := 0;
        case Refused(_) =>
          timeouts := 0;
        case NoAnswer =>
          timeouts := timeouts + 1;
          if timeouts >= FALLBACK_TIMEOUT_LIMIT {
            detail := RepeatedTimeouts;
            break;
          }
        case Broken(error) =>
          detail := Stopped(error);
          break;
        case BadCount =>
          assert false;
      }
      index := index + 1;
    }
    assert words == SingleWords(count, run);
    assert link.calls[|calls0|..] == run;
    SinglesDone(offset, count, run, detail);
  }

  method ReadBlock(link: Link, offset: nat, count: nat) returns (block: Block)
    requires link.InSync() && 1 <= count <= MAX_REGISTERS_PER_READ
    modifies link, link.wire
    ensures link.InSync()
    ensures old(link.calls) <= link.calls
    ensures BlockRun(offset, count, link.calls[|old(link.calls)|..])
    ensures block == BlockOf(offset, count, link.calls[|old(link.calls)|..])
    ensures old(link.wire.sent) <= link.wire.sent
    ensures |link.wire.sent| <= |old(link.wire.sent)| + 2 * (1 + count)
    ensures Justified(link.calls[|old(link.calls)|..], link.wire.sent[|old(link.wire.sent)|..], link.unit)
    ensures AllWithin(link.wire.sent[|old(link.wire.sent)|..], link.unit, offset, count)
  {
    hide Justified, BlockRun, BlockOf, AllWithin, RequestsFor, AnsweredByLast, Singles, SinglesDetail, StatusOf;
    ghost var calls0, sent0 := link.calls, link.wire.sent;
    var first := link.Read(offset, count);
    ghost var calls1, sent1 := link.calls, link.wire.sent;
    NothingAsked(link.unit, offset, count);
    assert sent0[|sent0|..] == [];
    RequestsWithin(sent0, sent0, sent1, link.unit, offset, count, 2, offset, count);
    assert link.calls[|calls0|..] == [Call(offset, count, first)];
    var result;
    match first {
      case Words(words) =>
        WholeRun(offset, count, first);
        return Block(offset, count, BlockOk, Whole, Complete, NoDetail, AllShown(words));
      case Broken(error) =>
        WholeRun(offset, count, first);
        return Block(offset, count, BlockError, Whole, Error, Stopped(error), NoneShown(count));
      case Refused(code) =>
        result := BlockRefused(code);
      case NoAnswer =>
        result := BlockTimeout;
      case BadCount =>
        assert false;
    }
    var words, detail := ReadSingles(link, offset, count);
    ghost var run := link.calls[|calls1|..];
    SinglesRun(offset, count, first, run);
    assert link.calls[|calls0|..] == [Call(offset, count, first)] + run;
    JustifiedJoin(sent0, sent1, link.wire.sent, link.unit, [Call(offset, count, first)], run);
    WithinJoin(sent1[|sent0|..], link.wire.sent[|sent1|..], link.unit, offset, count);
    assert link.wire.sent[|sent0|..] == sent1[|sent0|..] + link.wire.sent[|sent1|..];
    block := Block(offset, count, result, Single, StatusOf(words), detail, words);
  }

  lemma WithinJoin(a: seq<Sent>, b: seq<Sent>, unit: int, offset: nat, count: nat)
    requires AllWithin(a, unit, offset, count) && AllWithin(b, unit, offset, count)
    ensures AllWithin(a + b, unit, offset, count)
  {
  }

  lemma NothingRead(offset: nat, count: nat)
    ensures SinglesSoFar(offset, count, []) && !Stops([]) && TrailingTimeouts([]) == 0
    ensures forall i: nat :: SingleWord([], i) == None
  {
  }

  lemma SinglesDone(offset: nat, count: nat, run: seq<Call>, detail: Detail)
    requires SinglesSoFar(offset, count, run)
    requires match detail
      case NoDetail => !Stops(run)
      case RepeatedTimeouts => run != [] && run[|run| - 1].outcome.NoAnswer?
        && TrailingTimeouts(run) >= FALLBACK_TIMEOUT_LIMIT
      case Stopped(error) => run != [] && run[|run| - 1].outcome == Broken(error)
    ensures |run| <= count && detail == SinglesDetail(run)
    ensures detail != NoDetail ==> Stops(run)
  {
  }

  lemma NothingAsked(unit: int, offset: nat, count: nat)
    ensures AllWithin([], unit, offset, count)
  {
  }

  lemma WholeRun(offset: nat, count: nat, o: Outcome)
    requires (o.Words? && |o.words| == count) || o.Broken?
    ensures BlockRun(offset, count, [Call(offset, count, o)])
    ensures BlockOf(offset, count, [Call(offset, count, o)]) ==
      if o.Words? then Block(offset, count, BlockOk, Whole, Complete, NoDetail, AllShown(o.words))
      else Block(offset, count, BlockError, Whole, Error, Stopped(o.error), NoneShown(count))
  {
  }

  lemma SinglesRun(offset: nat, count: nat, o: Outcome, run: seq<Call>)
    requires (o.Refused? || o.NoAnswer?) && Singles(offset, count, run)
    ensures var calls := [Call(offset, count, o)] + run;
      && BlockRun(offset, count, calls)
      && BlockOf(offset, count, calls) ==
           Block(offset, count, if o.Refused? then BlockRefused(o.code) else BlockTimeout,
                 Single, StatusOf(SingleWords(count, run)), SinglesDetail(run), SingleWords(count, run))
  {
    assert ([Call(offset, count, o)] + run)[1..] == run;
  }

  lemma OneMore(offset: nat, count: nat, before: seq<Call>, run: seq<Call>)
    requires SinglesSoFar(offset, count, before) && !Stops(before) && |before| < count
    requires |run| == |before| + 1 && run[..|before|] == before && SingleCall(run[|before|], offset + |before|)
    ensures SinglesSoFar(offset, count, run)
    ensures TrailingTimeouts(run) == if run[|before|].outcome.NoAnswer? then TrailingTimeouts(before) + 1 else 0
    ensures forall i | 0 <= i < count && i != |before| :: SingleWord(run, i) == SingleWord(before, i)
    ensures SingleWord(before, |before|) == None
    ensures var o := run[|before|].outcome; SingleWord(run, |before|) == if o.Words? then Some(o.words[0]) else None
  {
    forall n | 0 <= n < |run| ensures !Stops(run[..n]) {
      if n < |before| {
        assert run[..n] == before[..n];
      }
    }
    forall i | 0 <= i < |run| ensures SingleCall(run[i], offset + i) {
      if i < |before| {
        assert run[i] == before[i];
      }
    }
    forall i | 0 <= i < count && i != |before| ensures SingleWord(run, i) == SingleWord(before, i) {
      if i < |before| {
        assert run[i] == before[i];
      }
    }
  }
}
