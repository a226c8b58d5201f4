/**
 The base64 side of the diagnostics redaction: the shape check, the decode of
 section 4 of RFC 4648, and the four gates that accept an encoded serial.
 */
module Base64 {
  import opened Text

  const BASE64_MIN_LEN := 20
  const MIN_SERIAL_LEN := 15

  predicate IsSerialChar(c: char) {
    'A' <= c <= 'Z' || '0' <= c <= '9'
  }

  predicate AllSerialChars(s: string) {
    forall i | 0 <= i < |s| :: IsSerialChar(s[i])
  }

  /** A full match of the serial pattern. */
  predicate IsSerial(s: string) {
    |s| >= MIN_SERIAL_LEN && AllSerialChars(s)
  }

  predicate IsSymbol(c: char) {
    'A' <= c <= 'Z' || 'a' <= c <= 'z' || '0' <= c <= '9' || c == '+' || c == '/'
  }

  function SymbolValue(c: char): (v: nat)
    requires IsSymbol(c)
    ensures v < 64
  {
    if 'A' <= c <= 'Z' then c as int - 'A' as int
    else if 'a' <= c <= 'z' then c as int - 'a' as int + 26
    else if '0' <= c <= '9' then c as int - '0' as int + 52
    else if c == '+' then 62 else 63
  }

  function Symbol(v: nat): (c: char)
    requires v < 64
    ensures IsSymbol(c) && SymbolValue(c) == v
  {
    if v < 26 then (v + 'A' as int) as char
    else if v < 52 then (v - 26 + 'a' as int) as char
    else if v < 62 then (v - 52 + '0' as int) as char
    else if v == 62 then '+' else '/'
  }

  const UPPER := "ABCDEFGHIJKLMNOPQRSTUVWXYZ"
  const LOWER := "abcdefghijklmnopqrstuvwxyz"
  const DIGITS := "0123456789"

  lemma Letters(v: nat)
    requires v < 26
    ensures |UPPER| == 26 && UPPER[v] == (v + 'A' as int) as char
    ensures |LOWER| == 26 && LOWER[v] == (v + 'a' as int) as char
  {
    UpperCase(v);
    LowerCase(v);
  }

  lemma UpperCase(v: nat)
    requires v < 26
    ensures |UPPER| == 26 && UPPER[v] == (v + 'A' as int) as char
  {
  }

  lemma LowerCase(v: nat)
    requires v < 26
    ensures |LOWER| == 26 && LOWER[v] == (v + 'a' as int) as char
  {
  }

  lemma Digits(v: nat)
    requires v < 10
    ensures |DIGITS| == 10 && DIGITS[v] == (v + '0' as int) as char
  {
  }

  /** Table 1 of RFC 4648, section 4. */
  const ALPHABET := UPPER + LOWER + DIGITS + "+/"

  lemma TableEntry(v: nat)
    requires v < 64
    ensures |ALPHABET| == 64
    ensures v < 26 ==> ALPHABET[v] == (v + 'A' as int) as char
    ensures 26 <= v < 52 ==> ALPHABET[v] == (v - 26 + 'a' as int) as char
    ensures 52 <= v < 62 ==> ALPHABET[v] == (v - 52 + '0' as int) as char
    ensures v == 62 ==> ALPHABET[v] == '+'
    ensures v == 63 ==> ALPHABET[v] == '/'
  {
    hide UPPER, LOWER, DIGITS;
    Letters(if v < 26 then v else if v < 52 then v - 26 else 0);
    Digits(if 52 <= v < 62 then v - 52 else 0);
  }

  /** The symbols are the standard's table, entry by entry, and no other character is one. */
  lemma SymbolsOfTheStandard(v: nat, c: char)
    requires v < 64
    ensures |ALPHABET| == 64 && Symbol(v) == ALPHABET[v]
    ensures IsSymbol(ALPHABET[v]) && SymbolValue(ALPHABET[v]) == v
    ensures IsSymbol(c) ==> ALPHABET[SymbolValue(c)] == c
    ensures IsSymbol(c) <==> c in ALPHABET
  {
    TableEntry(v);
    if IsSymbol(c) {
      TableEntry(SymbolValue(c));
    } else {
      forall i | 0 <= i < 64 ensures ALPHABET[i] != c {
        TableEntry(i);
      }
    }
  }

  /** Three bytes as four sextets, and back. */
  function Sextets(b0: byte, b1: byte, b2: byte): (v: (nat, nat, nat, nat))
    ensures v.0 < 64 && v.1 < 64 && v.2 < 64 && v.3 < 64
  {
    (b0 / 4, b0 % 4 * 16 + b1 / 16, b1 % 16 * 4 + b2 / 64, b2 % 64)
  }

  function Octets(v0: nat, v1: nat, v2: nat, v3: nat): (byte, byte, byte)
    requires v0 < 64 && v1 < 64 && v2 < 64 && v3 < 64
  {
    (v0 * 4 + v1 / 16, v1 % 16 * 16 + v2 / 4, v2 % 4 * 64 + v3)
  }

  lemma SplitSixteen(units: nat, part: nat)
    requires part < 16
    ensures (units * 16 + part) / 16 == units && (units * 16 + part) % 16 == part
  {
  }

  lemma SplitFour(units: nat, part: nat)
    requires part < 4
    ensures (units * 4 + part) / 4 == units && (units * 4 + part) % 4 == part
  {
  }

  lemma SextetRoundTrip(b0: byte, b1: byte, b2: byte)
    ensures var v := Sextets(b0, b1, b2); Octets(v.0, v.1, v.2, v.3) == (b0, b1, b2)
  {
    SplitSixteen(b0 % 4, b1 / 16);
    SplitFour(b1 % 16, b2 / 64);
  }

  lemma SextetPadding(b0: byte, b1: byte)
    ensures Sextets(b0, b1, 0).3 == 0 && Sextets(b0, 0, 0).2 == 0
  {
  }

  /** One or two last bytes as a padded quad. */
  function EncodeEnding(b: seq<byte>): (q: string)
    requires 1 <= |b| <= 2
    ensures |q| == 4 && IsSymbol(q[0]) && IsSymbol(q[1]) && q[3] == '='
  {
    var v := Sextets(b[0], if |b| == 2 then b[1] else 0, 0);
    [Symbol(v.0), Symbol(v.1), if |b| == 2 then Symbol(v.2) else '=', '=']
  }

  /** The encoder a device's own app runs; nothing in the integration calls it. */
  function Encode(b: seq<byte>): string {
    if |b| == 0 then ""
    else if |b| <= 2 then EncodeEnding(b)
    else
      var v := Sextets(b[0], b[1], b[2]);
      [Symbol(v.0), Symbol(v.1), Symbol(v.2), Symbol(v.3)] + Encode(b[3..])
  }

  predicate FullQuad(s: string) {
    |s| >= 4 && IsSymbol(s[0]) && IsSymbol(s[1]) && IsSymbol(s[2]) && IsSymbol(s[3])
  }

  /** A last quad with one or two padding characters. */
  function DecodeEnding(s: string): Option<seq<byte>>
    requires |s| == 4
  {
    if !IsSymbol(s[0]) || !IsSymbol(s[1]) || s[3] != '=' then None
    else if IsSymbol(s[2]) then
      var b := Octets(SymbolValue(s[0]), SymbolValue(s[1]), SymbolValue(s[2]), 0);
      Some([b.0, b.1])
    else if s[2] == '=' then
      var b := Octets(SymbolValue(s[0]), SymbolValue(s[1]), 0, 0);
      Some([b.0])
    else None
  }

  /** Strict decoding, quad by quad; `None` is the decoder's ValueError. */
  function Decode(s: string): Option<seq<byte>> {
    if s == "" then Some([])
    else if FullQuad(s) then
      var b := Octets(SymbolValue(s[0]), SymbolValue(s[1]), SymbolValue(s[2]), SymbolValue(s[3]));
      match Decode(s[4..])
      case None => None
      case Some(rest) => Some([b.0, b.1, b.2] + rest)
    else if |s| == 4 then DecodeEnding(s)
    else None
  }

  /** A quad is one number of twenty-four bits: four digits to the base 64, three to the base 256. */
  lemma DecodedQuad(s: string)
    requires FullQuad(s)
    ensures Decode(s).Some? <==> Decode(s[4..]).Some?
    ensures (Decode(s).Some? ==>
      var b := Decode(s).value;
      && |b| >= 3 && Decode(s[4..]) == Some(b[3..])
      && 65536 * b[0] as int + 256 * b[1] as int + b[2] as int
           == 262144 * SymbolValue(s[0]) + 4096 * SymbolValue(s[1]) + 64 * SymbolValue(s[2]) + SymbolValue(s[3]))
  {
  }

  /** One padding character stands for the last byte, two for the last two; the spare bits are dropped. */
  lemma DecodedEnding(s: string)
    requires |s| == 4 && !FullQuad(s)
    ensures Decode(s).Some? <==>
      IsSymbol(s[0]) && IsSymbol(s[1]) && s[3] == '=' && (IsSymbol(s[2]) || s[2] == '=')
    ensures (Decode(s).Some? && s[2] == '=' ==>
      var b := Decode(s).value;
      |b| == 1 && b[0] as int == (64 * SymbolValue(s[0]) + SymbolValue(s[1])) / 16)
    ensures (Decode(s).Some? && s[2] != '=' ==>
      var b := Decode(s).value;
      && |b| == 2
      && 256 * b[0] as int + b[1] as int
           == (4096 * SymbolValue(s[0]) + 64 * SymbolValue(s[1]) + SymbolValue(s[2])) / 4)
  {
  }

  lemma DecodeEncodeEnding(b: seq<byte>)
    requires 1 <= |b| <= 2
    ensures DecodeEnding(EncodeEnding(b)) == Some(b)
  {
    hide Sextets, Octets, Symbol, SymbolValue;
    var second := if |b| == 2 then b[1] else 0;
    SextetRoundTrip(b[0], second, 0);
    SextetPadding(b[0], second);
    assert b == if |b| == 2 then [b[0], second] else [b[0]];
  }

  lemma {:induction false} DecodeEncode(b: seq<byte>)
    ensures Decode(Encode(b)) == Some(b)
    decreases |b|
  {
    hide Sextets, Octets, Symbol, SymbolValue;
    if |b| >= 3 {
      SextetRoundTrip(b[0], b[1], b[2]);
      DecodeEncode(b[3..]);
      assert Encode(b)[4..] == Encode(b[3..]);
      assert [b[0], b[1], b[2]] + b[3..] == b;
    } else if |b| > 0 {
      DecodeEncodeEnding(b);
    }
  }

  function Padding(s: string): (p: nat)
    ensures p <= 2 && p <= |s|
  {
    if |s| >= 1 && s[|s| - 1] == '=' then
      if |s| >= 2 && s[|s| - 2] == '=' then 2 else 1
    else 0
  }

  /** Symbols up to the padding: a full match of `[A-Za-z0-9+/]+={0,2}` on a multiple of four. */
  predicate Shape(s: string) {
    && |s| % 4 == 0
    && Padding(s) < |s|
    && forall i | 0 <= i < |s| - Padding(s) :: IsSymbol(s[i])
  }

  predicate LooksLikeBase64(s: string) {
    |s| >= BASE64_MIN_LEN && Shape(s)
  }

  lemma ShapeOfQuad(s: string)
    requires |s| > 4
    ensures Shape(s) <==> FullQuad(s) && Shape(s[4..])
  {
    if |s| % 4 == 0 {
      var t := s[4..];
      assert Padding(t) == Padding(s) by {
        assert t[|t| - 1] == s[|s| - 1] && t[|t| - 2] == s[|s| - 2];
      }
      assert forall i | 0 <= i < |t| :: t[i] == s[i + 4];
      assert forall i | 4 <= i < |s| :: s[i] == t[i - 4];
    }
  }

  /** The shape check is exact: with it the decoder never fails, without it it always does. */
  lemma {:induction false} ShapeIffDecodes(s: string)
    requires s != ""
    ensures Shape(s) <==> Decode(s).Some?
    decreases |s|
  {
    if |s| > 4 {
      ShapeOfQuad(s);
      ShapeIffDecodes(s[4..]);
    } else if |s| == 4 && FullQuad(s) {
      assert s[4..] == "";
    }
  }

  function Ascii(s: string): (b: seq<byte>)
    requires forall i | 0 <= i < |s| :: s[i] as int < 128
    ensures |b| == |s|
  {
    seq(|s|, i requires 0 <= i < |s| => s[i] as int)
  }

  /** The decoded bytes as text; `None` is the UnicodeDecodeError. */
  function FromAscii(b: seq<byte>): Option<string> {
    if forall i | 0 <= i < |b| :: b[i] < 128
    then Some(seq(|b|, i requires 0 <= i < |b| => b[i] as char))
    else None
  }

  lemma AsciiRoundTrip(s: string)
    requires forall i | 0 <= i < |s| :: s[i] as int < 128
    ensures FromAscii(Ascii(s)) == Some(s)
  {
    var b := Ascii(s);
    assert seq(|b|, i requires 0 <= i < |b| => b[i] as char) == s;
  }

  /** The serial a string base64-encodes: shape, decode, ASCII, full serial match. */
  function DecodeSerial(s: string): (r: Option<string>)
    ensures r.Some? ==> IsSerial(r.value)
  {
    if !LooksLikeBase64(s) then None
    else match Decode(s)
      case None => None
      case Some(b) =>
        match FromAscii(b)
        case None => None
        case Some(text) => if IsSerial(text) then Some(text) else None
  }

  const SERIAL_ALPHABET := UPPER + DIGITS

  /** A serial is exactly fifteen or more of these thirty-six characters. */
  lemma SerialIff(s: string)
    ensures IsSerial(s) <==> |s| >= 15 && forall i | 0 <= i < |s| :: s[i] in SERIAL_ALPHABET
  {
    forall c: char ensures IsSerialChar(c) <==> c in SERIAL_ALPHABET {
      SerialTable(c);
    }
  }

  lemma SerialTable(c: char)
    ensures IsSerialChar(c) <==> c in SERIAL_ALPHABET
  {
    hide UPPER, DIGITS;
    Letters(0);
    Digits(0);
    if 'A' <= c <= 'Z' {
      Letters(c as int - 'A' as int);
      assert SERIAL_ALPHABET[c as int - 'A' as int] == c;
    } else if '0' <= c <= '9' {
      Digits(c as int - '0' as int);
      assert SERIAL_ALPHABET[c as int - '0' as int + 26] == c;
    } else {
      forall i | 0 <= i < |SERIAL_ALPHABET| ensures SERIAL_ALPHABET[i] != c {
        if i < 26 {
          Letters(i);
        } else {
          Digits(i - 26);
        }
      }
    }
  }

  lemma FromAsciiIff(b: seq<byte>, t: string)
    ensures FromAscii(b) == Some(t) <==>
      |b| == |t| && forall i | 0 <= i < |b| :: b[i] < 128 && b[i] == t[i] as int
  {
    if |b| == |t| && forall i | 0 <= i < |b| :: b[i] < 128 && b[i] == t[i] as int {
      assert t == seq(|b|, i requires 0 <= i < |b| => b[i] as char);
    }
  }

  /** What the four gates accept: a long enough string that decodes to the bytes of a serial. */
  lemma DecodeSerialIff(s: string, t: string)
    ensures DecodeSerial(s) == Some(t) <==>
      && |s| >= 20 && Decode(s).Some? && |Decode(s).value| == |t|
      && (forall i | 0 <= i < |t| :: Decode(s).value[i] == t[i] as int)
      && |t| >= 15 && forall i | 0 <= i < |t| :: t[i] in SERIAL_ALPHABET
  {
    hide Decode;
    SerialIff(t);
    forall c: char ensures IsSerialChar(c) <==> c in SERIAL_ALPHABET {
      SerialTable(c);
    }
    if |s| >= 20 {
      ShapeIffDecodes(s);
      if Decode(s).Some? {
        FromAsciiIff(Decode(s).value, t);
      }
    }
  }

  lemma {:induction false} EncodeLength(b: seq<byte>)
    ensures 4 * |b| <= 3 * |Encode(b)| <= 4 * |b| + 8
    decreases |b|
  {
    if |b| >= 3 {
      EncodeLength(b[3..]);
    }
  }

  function EncodeSerial(serial: string): string
    requires IsSerial(serial)
  {
    Encode(Ascii(serial))
  }

  /** Every serial's encoding passes all four gates and comes back as the serial. */
  lemma EncodedSerialIsRecognised(serial: string)
    requires IsSerial(serial)
    ensures DecodeSerial(EncodeSerial(serial)) == Some(serial)
  {
    hide Encode, Decode, Shape;
    var b := Ascii(serial);
    DecodeEncode(b);
    EncodeLength(b);
    ShapeIffDecodes(Encode(b));
    AsciiRoundTrip(serial);
  }

  /** Decoding shrinks a string, so an encoded serial is never its own decoding. */
  lemma {:induction false} DecodeLength(s: string)
    requires Decode(s).Some?
    ensures 4 * |Decode(s).value| <= 3 * |s|
    decreases |s|
  {
    if FullQuad(s) {
      DecodeLength(s[4..]);
    }
  }

  lemma DecodedSerialIsShorter(s: string)
    requires DecodeSerial(s).Some?
    ensures |DecodeSerial(s).value| < |s|
  {
    DecodeLength(s);
  }

  lemma StarIsNoBase64(s: string, i: nat)
    requires i < |s| && s[i] == '*'
    ensures DecodeSerial(s) == None
  {
  }

  /** A serial of twenty characters can be the encoding of one of fifteen. */
  lemma LongSerialCanBeAnEncoding()
    ensures exists serial :: IsSerial(serial) && DecodeSerial(serial).Some?
  {
    var plain := seq(15, _ => 'P');
    var b := Ascii(plain);
    PlainTextEncoding(b);
    EncodedSerialIsRecognised(plain);
    EncodeLength(b);
    assert IsSerial(EncodeSerial(plain));
  }

  lemma EncodeNothing()
    ensures Encode([]) == ""
  {
  }

  lemma PlainQuad(rest: seq<byte>)
    ensures Encode([80, 80, 80] + rest) == "UFBQ" + Encode(rest)
  {
    var b := [80, 80, 80] + rest;
    assert b[3..] == rest;
    assert Sextets(80, 80, 80) == (20, 5, 1, 16);
    assert Symbol(20) == 'U' && Symbol(5) == 'F' && Symbol(1) == 'B' && Symbol(16) == 'Q';
  }

  /** Every quad of the encoding of one repeated letter is made of serial characters. */
  lemma {:induction false} PlainTextEncoding(b: seq<byte>)
    requires |b| % 3 == 0 && forall i | 0 <= i < |b| :: b[i] == 'P' as int
    ensures AllSerialChars(Encode(b))
    decreases |b|
  {
    hide Encode;
    if b != [] {
      PlainTextEncoding(b[3..]);
      PlainQuad(b[3..]);
      assert b == [80, 80, 80] + b[3..];
    } else {
      EncodeNothing();
    }
  }
}
