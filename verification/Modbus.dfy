/**
 Modbus/TCP frames as the register scan builds and reads them: the MBAP header of
 section 3.1.3 of the MODBUS Messaging on TCP/IP Implementation Guide V1.0b,
 function 0x03 of section 6.3 and the exception replies of section 7 of the MODBUS
 Application Protocol Specification V1.1b3.
 */
module Modbus {
  import opened Text

  const MODBUS_BASE_ADDRESS := 40001
  const READ_HOLDING_REGISTERS := 0x03
  const EXCEPTION_FLAG := 0x80
  const MAX_REGISTERS_PER_READ := 125
  const MBAP_LEN := 7

  datatype BuildError = ReadOnlyViolation | CountOutOfRange | FieldOverflow

  datatype Built = Frame(bytes: seq<byte>) | Refusal(error: BuildError)

  /** Why a scan step gave up; each is one message of the original's ScanError. */
  datatype ScanError =
    | InvalidAddress | CannotConnect | ConnectionLost
    | HeaderMismatch | MalformedReply | LengthMismatch

  /** How one read of the link ends. `BadCount` is the ValueError of an impossible register count. */
  datatype Outcome =
    | Words(words: seq<word>) | Refused(code: byte) | NoAnswer | Broken(error: ScanError) | BadCount

  function Be16(w: word): (b: seq<byte>)
    ensures |b| == 2
  {
    [w / 0x100, w % 0x100]
  }

  function WordAt(b: seq<byte>, i: nat): word
    requires i + 2 <= |b|
  {
    b[i] as int * 0x100 + b[i + 1]
  }

  lemma WordRoundTrip(w: word)
    ensures WordAt(Be16(w), 0) == w
  {
  }

  predicate FieldsFit(tid: int, unit: int, address: int) {
    0 <= tid < 0x1_0000 && 0 <= unit < 0x100 && 0 <= address < 0x1_0000
  }

  /** Build one request frame. Only function code 0x03 is ever allowed. */
  function BuildRequest(tid: int, unit: int, function_: int, offset: int, count: int): Built {
    if function_ != READ_HOLDING_REGISTERS then Refusal(ReadOnlyViolation)
    else if !(1 <= count <= MAX_REGISTERS_PER_READ) then Refusal(CountOutOfRange)
    else if !FieldsFit(tid, unit, MODBUS_BASE_ADDRESS + offset) then Refusal(FieldOverflow)
    else Frame(Be16(tid) + Be16(0) + Be16(6) + [unit, function_] + Be16(MODBUS_BASE_ADDRESS + offset) + Be16(count))
  }

  /** A read request as the device understands it. */
  datatype Request = Request(tid: word, unit: byte, address: word, count: word)

  /** The device's side: a frame is a read request or nothing. */
  function ParseRequest(frame: seq<byte>): Option<Request> {
    if |frame| == 12 && WordAt(frame, 2) == 0 && WordAt(frame, 4) == 6 && frame[7] == READ_HOLDING_REGISTERS
    then Some(Request(WordAt(frame, 0), frame[6], WordAt(frame, 8), WordAt(frame, 10)))
    else None
  }

  /** A frame exists exactly for readable requests, and the device reads back what was asked. */
  lemma RequestRoundTrip(tid: int, unit: int, function_: int, offset: int, count: int)
    ensures var built := BuildRequest(tid, unit, function_, offset, count);
      && (built.Frame? <==>
            && function_ == 3 && 1 <= count <= 125
            && 0 <= tid <= 0xFFFF && 0 <= unit <= 0xFF && 0 <= 40001 + offset <= 0xFFFF)
      && (built.Frame? ==>
            && ParseRequest(built.bytes) == Some(Request(tid, unit, MODBUS_BASE_ADDRESS + offset, count))
            && built.bytes == [tid / 256, tid % 256, 0, 0, 0, 6, unit, 3,
                               (40001 + offset) / 256, (40001 + offset) % 256, 0, count])
  {
    var built := BuildRequest(tid, unit, function_, offset, count);
    if built.Frame? {
      var f := built.bytes;
      assert f[0..2] == Be16(tid) && f[2..4] == Be16(0) && f[4..6] == Be16(6);
      assert f[8..10] == Be16(MODBUS_BASE_ADDRESS + offset) && f[10..12] == Be16(count);
      WordRoundTrip(tid);
      WordRoundTrip(MODBUS_BASE_ADDRESS + offset);
      WordRoundTrip(count);
    }
  }

  // -------------------------------------------------------------------- replies

  /** One complete frame: the MBAP length counts the bytes after it. */
  predicate IsFrame(f: seq<byte>) {
    |f| >= MBAP_LEN && |f| == 6 + WordAt(f, 4)
  }

  /** Big-endian registers of a reply's data bytes. */
  function Registers(data: seq<byte>): (words: seq<word>)
    requires |data| % 2 == 0
    ensures |words| == |data| / 2
  {
    if data == [] then [] else [WordAt(data, 0)] + Registers(data[2..])
  }

  function RegisterBytes(words: seq<word>): (data: seq<byte>)
    ensures |data| == 2 * |words|
  {
    if words == [] then [] else Be16(words[0]) + RegisterBytes(words[1..])
  }

  /** What one whole reply means to the request with this transaction id and count. */
  function Interpret(reply: seq<byte>, tid: word, count: nat): Outcome
    requires IsFrame(reply)
  {
    if WordAt(reply, 0) != tid || WordAt(reply, 2) != 0 || !(3 <= WordAt(reply, 4) <= 254)
    then Broken(HeaderMismatch)
    else InterpretPdu(reply[MBAP_LEN..], count)
  }

  function InterpretPdu(pdu: seq<byte>, count: nat): Outcome
    requires |pdu| >= 2
  {
    if pdu[0] == READ_HOLDING_REGISTERS + EXCEPTION_FLAG then Refused(pdu[1])
    else if pdu[0] != READ_HOLDING_REGISTERS || pdu[1] != 2 * count then Broken(MalformedReply)
    else if |pdu| != 2 + 2 * count then Broken(LengthMismatch)
    else Words(Registers(pdu[2..]))
  }

  /** The device's answer with the register words. */
  function EncodeReply(tid: word, unit: byte, words: seq<word>): seq<byte>
    requires |words| <= MAX_REGISTERS_PER_READ
  {
    Be16(tid) + Be16(0) + Be16(3 + 2 * |words|) + [unit, READ_HOLDING_REGISTERS, 2 * |words|] + RegisterBytes(words)
  }

  lemma {:induction false} RegistersOfBytes(words: seq<word>)
    ensures Registers(RegisterBytes(words)) == words
  {
    if words != [] {
      var data := RegisterBytes(words);
      assert data[..2] == Be16(words[0]) && data[2..] == RegisterBytes(words[1..]);
      WordRoundTrip(words[0]);
      RegistersOfBytes(words[1..]);
    }
  }

  lemma EncodedWordsAreRead(tid: word, unit: byte, words: seq<word>)
    requires |words| <= MAX_REGISTERS_PER_READ
    ensures var reply := EncodeReply(tid, unit, words);
      IsFrame(reply) && Interpret(reply, tid, |words|) == Words(words)
  {
    hide Registers, RegisterBytes, Be16;
    var reply := EncodeReply(tid, unit, words);
    assert reply[0..2] == Be16(tid) && reply[2..4] == Be16(0) && reply[4..6] == Be16(3 + 2 * |words|);
    WordBytes(reply, 0);
    WordBytes(reply, 2);
    WordBytes(reply, 4);
    WordRoundTrip(tid);
    WordRoundTrip(0);
    WordRoundTrip(3 + 2 * |words|);
    assert reply[MBAP_LEN..][2..] == RegisterBytes(words);
    RegistersOfBytes(words);
  }

  lemma {:induction false} RegisterAt(data: seq<byte>, i: nat)
    requires |data| % 2 == 0 && i < |data| / 2
    ensures Registers(data)[i] == data[2 * i] as int * 256 + data[2 * i + 1]
  {
    if i > 0 {
      RegisterAt(data[2..], i - 1);
    }
  }

  /** The header of every reply to the request: its id, protocol zero, and the length of what follows. */
  predicate HeaderBytes(reply: seq<byte>, tid: word) {
    |reply| >= 9 && reply[..6] == [tid / 256, tid % 256, 0, 0, (|reply| - 6) / 256, (|reply| - 6) % 256]
  }

  lemma HeaderIff(reply: seq<byte>, tid: word)
    requires IsFrame(reply) && |reply| <= 260
    ensures HeaderBytes(reply, tid) <==> WordAt(reply, 0) == tid && WordAt(reply, 2) == 0 && 3 <= WordAt(reply, 4)
  {
  }

  /** Words come out of exactly the replies that carry them, byte for byte with the high byte first. */
  lemma WordsIffCarried(reply: seq<byte>, tid: word, count: nat, words: seq<word>)
    requires IsFrame(reply) && count <= MAX_REGISTERS_PER_READ
    ensures Interpret(reply, tid, count) == Words(words) <==>
      && |words| == count && |reply| == 9 + 2 * count
      && HeaderBytes(reply, tid) && reply[7] == 3 && reply[8] == 2 * count
      && forall i | 0 <= i < count :: words[i] == reply[9 + 2 * i] as int * 256 + reply[10 + 2 * i]
  {
    if |reply| == 9 + 2 * count {
      HeaderIff(reply, tid);
      var data := reply[MBAP_LEN..][2..];
      assert data == reply[9..];
      forall i | 0 <= i < count ensures Registers(data)[i] == reply[9 + 2 * i] as int * 256 + reply[10 + 2 * i] {
        RegisterAt(data, i);
      }
    }
  }

  lemma WordBytes(b: seq<byte>, i: nat)
    requires i + 2 <= |b|
    ensures b[i..i + 2] == Be16(WordAt(b, i)) && WordAt(b[i..i + 2], 0) == WordAt(b, i)
  {
  }

  /** An exception reply; whatever follows the code is not looked at. */
  function ExceptionReply(tid: word, unit: byte, code: byte, rest: seq<byte>): seq<byte>
    requires |rest| <= 251
  {
    Be16(tid) + Be16(0) + Be16(3 + |rest|) + [unit, READ_HOLDING_REGISTERS + EXCEPTION_FLAG, code] + rest
  }

  lemma ExceptionIsRefused(tid: word, unit: byte, code: byte, rest: seq<byte>, count: nat)
    requires |rest| <= 251
    ensures var reply := ExceptionReply(tid, unit, code, rest);
      IsFrame(reply) && Interpret(reply, tid, count) == Refused(code)
  {
    hide Be16;
    var reply := ExceptionReply(tid, unit, code, rest);
    assert reply[0..2] == Be16(tid) && reply[2..4] == Be16(0) && reply[4..6] == Be16(3 + |rest|);
    WordBytes(reply, 0);
    WordBytes(reply, 2);
    WordBytes(reply, 4);
    WordRoundTrip(tid);
    WordRoundTrip(0);
    WordRoundTrip(3 + |rest|);
  }

  /** A refusal comes out of exactly the exception replies, whatever their length, with their own code. */
  lemma RefusedIffException(reply: seq<byte>, tid: word, count: nat, code: byte)
    requires IsFrame(reply)
    ensures Interpret(reply, tid, count) == Refused(code) <==>
      9 <= |reply| <= 260 && HeaderBytes(reply, tid) && reply[7] == 0x83 && reply[8] == code
  {
    if 9 <= |reply| <= 260 {
      HeaderIff(reply, tid);
    }
  }

  /** Every other frame is one of three errors: the wrong header, the wrong length, the wrong function or count. */
  lemma WrongReplyIff(reply: seq<byte>, tid: word, count: nat)
    requires IsFrame(reply)
    ensures var o, header := Interpret(reply, tid, count), |reply| <= 260 && HeaderBytes(reply, tid);
      && (o == Broken(HeaderMismatch) <==> !header)
      && (o == Broken(LengthMismatch) <==>
            header && reply[7] == 3 && reply[8] == 2 * count && |reply| != 9 + 2 * count)
      && (o == Broken(MalformedReply) <==>
            header && reply[7] != 0x83 && (reply[7] != 3 || reply[8] != 2 * count))
  {
    if |reply| <= 260 {
      HeaderIff(reply, tid);
    }
  }
}
