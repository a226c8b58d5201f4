/**
 One string of the diagnostics redaction: the growing alias table, the
 substitution of maximal serial runs, and the decoding of whole encoded serials.
 */
module Aliases {
  import opened Text
  import opened Base64

  const REDACTED := "**REDACTED**"

  /** The alias table of one pass: serial to placeholder. */
  type AliasMap = map<string, string>

  /** The placeholder of the n-th distinct serial of a pass, counted from 1. */
  function Marker(n: nat): string {
    if n <= 1 then REDACTED else "**REDACTED-" + Decimal(n) + "**"
  }

  /** The text between the two pairs of stars. */
  function MarkerBody(n: nat): (s: string)
    ensures Marker(n) == "**" + s + "**"
    ensures forall i | 0 <= i < |s| :: s[i] != '*'
  {
    if n <= 1 then "REDACTED" else "REDACTED-" + Decimal(n)
  }

  /** Look a serial up, numbering it when it is new. */
  function Alias(serial: string, aliases: AliasMap): (string, AliasMap) {
    if serial in aliases then (aliases[serial], aliases)
    else
      var marker := if |aliases| == 0 then REDACTED else Marker(|aliases| + 1);
      (marker, aliases[serial := marker])
  }

  // ---------------------------------------------------------------- the table

  predicate IsMarker(text: string, n: nat) {
    1 <= n && text == Marker(n)
  }

  /** Every placeholder is one of the first |aliases| markers, and no two serials share one. */
  ghost predicate Valid(aliases: AliasMap) {
    && (forall s | s in aliases :: exists n: nat :: n <= |aliases| && IsMarker(aliases[s], n))
    && (forall s, t | s in aliases && t in aliases && aliases[s] == aliases[t] :: s == t)
  }

  ghost predicate Extends(before: AliasMap, after: AliasMap) {
    forall s | s in before :: s in after && after[s] == before[s]
  }

  lemma MarkerInjective(m: nat, n: nat)
    requires 1 <= m && 1 <= n && Marker(m) == Marker(n)
    ensures m == n
  {
    if m > 1 && n > 1 {
      assert Decimal(m) == Marker(m)[11..|Marker(m)| - 2];
      assert Decimal(n) == Marker(n)[11..|Marker(n)| - 2];
      DecimalRoundTrip(m);
      DecimalRoundTrip(n);
    } else {
      assert REDACTED[10] != "**REDACTED-"[10];
    }
  }

  lemma ExtendsGrows(before: AliasMap, after: AliasMap)
    requires Extends(before, after)
    ensures |before| <= |after|
  {
    SubsetSize(before.Keys, after.Keys);
    assert |before.Keys| == |before| && |after.Keys| == |after|;
  }

  lemma {:induction false} SubsetSize<T>(a: set<T>, b: set<T>)
    requires a <= b
    ensures |a| <= |b|
  {
    if a != {} {
      var x :| x in a;
      SubsetSize(a - {x}, b - {x});
    }
  }

  /** Aliasing keeps the table injective and only ever adds to it. */
  lemma AliasKeepsTable(serial: string, aliases: AliasMap)
    requires Valid(aliases)
    ensures var (marker, after) := Alias(serial, aliases);
      && Valid(after) && Extends(aliases, after)
      && serial in after && after[serial] == marker
      && (exists n: nat :: n <= |after| && IsMarker(marker, n))
  {
    var (marker, after) := Alias(serial, aliases);
    if serial !in aliases {
      var number := |aliases| + 1;
      assert IsMarker(marker, number) && |after| == number;
      forall s | s in after
        ensures exists n: nat :: n <= |after| && IsMarker(after[s], n)
      {
        if s == serial {
          assert IsMarker(after[s], number);
        } else {
          var n: nat :| n <= |aliases| && IsMarker(aliases[s], n);
          assert IsMarker(after[s], n);
        }
      }
      forall s | s in aliases
        ensures aliases[s] != marker
      {
        var n: nat :| n <= |aliases| && IsMarker(aliases[s], n);
        if aliases[s] == marker {
          MarkerInjective(n, number);
        }
      }
    }
  }

  // ----------------------------------------------------------- the substitution

  /** Length of the run of serial characters a string starts with. */
  function RunLength(s: string): (n: nat)
    ensures n <= |s| && AllSerialChars(s[..n])
    ensures n < |s| ==> !IsSerialChar(s[n])
  {
    if s == "" || !IsSerialChar(s[0]) then 0
    else
      var n := 1 + RunLength(s[1..]);
      assert forall i | 1 <= i < n :: s[i] == s[1..][..n - 1][i - 1];
      n
  }

  /** The first piece the scanner takes off a string: a whole run, or one other character. */
  function Piece(s: string): (n: nat)
    requires s != ""
    ensures 0 < n <= |s|
  {
    if RunLength(s) == 0 then 1 else RunLength(s)
  }

  /** Replace every maximal run of fifteen or more serial characters, left to right. */
  function RedactRuns(s: string, aliases: AliasMap): (string, AliasMap)
    decreases |s|
  {
    if s == "" then ("", aliases)
    else
      var n := Piece(s);
      var (piece, after) := if RunLength(s) >= MIN_SERIAL_LEN then Alias(s[..n], aliases) else (s[..n], aliases);
      var (rest, last) := RedactRuns(s[n..], after);
      (piece + rest, last)
  }

  lemma NothingLeft(aliases: AliasMap)
    ensures RedactRuns("", aliases) == ("", aliases)
  {
  }

  /** One step over a run that is kept. */
  lemma KeptStep(s: string, aliases: AliasMap)
    requires s != "" && RunLength(s) < MIN_SERIAL_LEN
    ensures var (rest, last) := RedactRuns(s[Piece(s)..], aliases);
      RedactRuns(s, aliases) == (s[..Piece(s)] + rest, last)
  {
  }

  /** One step over a run that is replaced. */
  lemma ReplacedStep(s: string, aliases: AliasMap)
    requires s != "" && RunLength(s) >= MIN_SERIAL_LEN
    ensures var (marker, after) := Alias(s[..Piece(s)], aliases);
      var (rest, last) := RedactRuns(s[Piece(s)..], after);
      RedactRuns(s, aliases) == (marker + rest, last)
  {
  }

  /** The string case of the pass: a whole encoded serial first, then the runs. */
  function RedactText(s: string, aliases: AliasMap): (string, AliasMap) {
    match DecodeSerial(s)
    case Some(serial) => Alias(serial, aliases)
    case None => RedactRuns(s, aliases)
  }

  lemma {:induction false} RunsKeepTable(s: string, aliases: AliasMap)
    requires Valid(aliases)
    ensures Valid(RedactRuns(s, aliases).1) && Extends(aliases, RedactRuns(s, aliases).1)
    decreases |s|
  {
    if s != "" {
      var n := Piece(s);
      if RunLength(s) >= MIN_SERIAL_LEN {
        AliasKeepsTable(s[..n], aliases);
        RunsKeepTable(s[n..], Alias(s[..n], aliases).1);
      } else {
        RunsKeepTable(s[n..], aliases);
      }
    }
  }

  lemma TextKeepsTable(s: string, aliases: AliasMap)
    requires Valid(aliases)
    ensures Valid(RedactText(s, aliases).1) && Extends(aliases, RedactText(s, aliases).1)
  {
    match DecodeSerial(s)
    case Some(serial) => AliasKeepsTable(serial, aliases);
    case None => RunsKeepTable(s, aliases);
  }

  // ------------------------------------------------------------- the order of the numbers

  /** The serials of a string in the order they are met. */
  function RunsIn(s: string): seq<string>
    decreases |s|
  {
    if s == "" then []
    else (if RunLength(s) >= MIN_SERIAL_LEN then [s[..Piece(s)]] else []) + RunsIn(s[Piece(s)..])
  }

  function SerialsIn(s: string): seq<string> {
    match DecodeSerial(s)
    case Some(serial) => [serial]
    case None => RunsIn(s)
  }

  /** Look up one serial after the other. */
  function AliasAll(serials: seq<string>, aliases: AliasMap): AliasMap
    decreases |serials|
  {
    if serials == [] then aliases
    else Alias(serials[|serials| - 1], AliasAll(serials[..|serials| - 1], aliases)).1
  }

  lemma {:induction false} AliasAllJoin(a: seq<string>, b: seq<string>, aliases: AliasMap)
    ensures AliasAll(a + b, aliases) == AliasAll(b, AliasAll(a, aliases))
    decreases |b|
  {
    hide Alias;
    if b == [] {
      assert a + b == a;
    } else {
      assert (a + b)[..|a + b| - 1] == a + b[..|b| - 1];
      AliasAllJoin(a, b[..|b| - 1], aliases);
    }
  }

  lemma AliasAllOne(serial: string, aliases: AliasMap)
    ensures AliasAll([serial], aliases) == Alias(serial, aliases).1
  {
    assert [serial][..0] == [];
  }

  lemma {:induction false} RunsInOrder(s: string, aliases: AliasMap)
    ensures RedactRuns(s, aliases).1 == AliasAll(RunsIn(s), aliases)
    decreases |s|
  {
    hide RedactRuns, Alias;
    if s == "" {
      NothingLeft(aliases);
    } else {
      var n := Piece(s);
      if RunLength(s) >= MIN_SERIAL_LEN {
        ReplacedStep(s, aliases);
        RunsInOrder(s[n..], Alias(s[..n], aliases).1);
        AliasAllOne(s[..n], aliases);
        AliasAllJoin([s[..n]], RunsIn(s[n..]), aliases);
      } else {
        KeptStep(s, aliases);
        RunsInOrder(s[n..], aliases);
        assert RunsIn(s) == RunsIn(s[n..]);
      }
    }
  }

  lemma TextInOrder(s: string, aliases: AliasMap)
    ensures RedactText(s, aliases).1 == AliasAll(SerialsIn(s), aliases)
  {
    match DecodeSerial(s)
    case Some(serial) => AliasAllOne(serial, aliases);
    case None => RunsInOrder(s, aliases);
  }

  function SetOf(serials: seq<string>): set<string> {
    set i | 0 <= i < |serials| :: serials[i]
  }

  lemma SetOfMore(serials: seq<string>)
    requires serials != []
    ensures SetOf(serials) == SetOf(serials[..|serials| - 1]) + {serials[|serials| - 1]}
  {
    var front := serials[..|serials| - 1];
    forall i | 0 <= i < |serials| ensures serials[i] in SetOf(front) + {serials[|serials| - 1]} {
      assert i < |front| ==> serials[i] == front[i];
    }
    forall i | 0 <= i < |front| ensures front[i] in SetOf(serials) {
      assert front[i] == serials[i];
    }
  }

  lemma {:induction false} AliasAllHolds(serials: seq<string>)
    ensures Valid(AliasAll(serials, map[])) && AliasAll(serials, map[]).Keys == SetOf(serials)
    decreases |serials|
  {
    if serials != [] {
      hide Valid, Alias, SetOf;
      var before := AliasAll(serials[..|serials| - 1], map[]);
      AliasAllHolds(serials[..|serials| - 1]);
      AliasStep(serials[|serials| - 1], before);
      AliasKeys(serials[|serials| - 1], before);
      SetOfMore(serials);
    }
  }

  lemma AliasKeys(serial: string, aliases: AliasMap)
    ensures Alias(serial, aliases).1.Keys == aliases.Keys + {serial}
  {
  }

  lemma AliasStep(serial: string, aliases: AliasMap)
    requires Valid(aliases)
    ensures Valid(Alias(serial, aliases).1) && Extends(aliases, Alias(serial, aliases).1)
  {
    AliasKeepsTable(serial, aliases);
  }

  /** The first new serial gets the bare placeholder, each later one the next number. */
  lemma NewAlias(serial: string, aliases: AliasMap)
    requires serial !in aliases
    ensures serial in Alias(serial, aliases).1
    ensures Alias(serial, aliases).1[serial] ==
      if |aliases| == 0 then "**REDACTED**" else "**REDACTED-" + Decimal(|aliases| + 1) + "**"
  {
  }

  /** Serials are numbered in the order they are first met: by how many others came before. */
  lemma {:induction false} NumberedInOrder(serials: seq<string>, k: nat)
    requires k < |serials| && serials[k] !in SetOf(serials[..k])
    ensures var table, others := AliasAll(serials, map[]), |SetOf(serials[..k])|;
      && serials[k] in table
      && table[serials[k]] == if others == 0 then "**REDACTED**" else "**REDACTED-" + Decimal(others + 1) + "**"
    decreases |serials|
  {
    hide Valid, Alias, SetOf, Decimal;
    var front := serials[..|serials| - 1];
    var before := AliasAll(front, map[]);
    AliasAllHolds(front);
    AliasStep(serials[|serials| - 1], before);
    if k < |front| {
      assert front[..k] == serials[..k];
      NumberedInOrder(front, k);
    } else {
      assert |before| == |before.Keys|;
      NewAlias(serials[k], before);
    }
  }

  // ------------------------------------------------------------------- absence

  predicate SerialAt(s: string, i: nat) {
    i + MIN_SERIAL_LEN <= |s| && AllSerialChars(s[i..i + MIN_SERIAL_LEN])
  }

  /** No fifteen consecutive serial characters anywhere. */
  ghost predicate NoSerial(s: string) {
    forall i: nat | i < |s| :: !SerialAt(s, i)
  }

  predicate SerialEdge(a: string, b: string) {
    a != "" && b != "" && IsSerialChar(a[|a| - 1]) && IsSerialChar(b[0])
  }

  lemma NoSerialConcat(a: string, b: string)
    requires NoSerial(a) && NoSerial(b) && !SerialEdge(a, b)
    ensures NoSerial(a + b)
  {
    forall i: nat | i < |a + b|
      ensures !SerialAt(a + b, i)
    {
      if i + MIN_SERIAL_LEN <= |a + b| {
        var w := (a + b)[i..i + MIN_SERIAL_LEN];
        if i >= |a| {
          assert w == b[i - |a|..i - |a| + MIN_SERIAL_LEN] && !SerialAt(b, i - |a|);
        } else if i + MIN_SERIAL_LEN <= |a| {
          assert w == a[i..i + MIN_SERIAL_LEN] && !SerialAt(a, i);
        } else {
          assert w[|a| - 1 - i] == a[|a| - 1] && w[|a| - i] == b[0];
        }
      }
    }
  }

  lemma NoSerialSuffix(s: string, n: nat)
    requires NoSerial(s) && n <= |s|
    ensures NoSerial(s[n..])
  {
    forall i: nat | i < |s[n..]|
      ensures !SerialAt(s[n..], i)
    {
      if i + MIN_SERIAL_LEN <= |s[n..]| {
        assert s[n..][i..i + MIN_SERIAL_LEN] == s[n + i..n + i + MIN_SERIAL_LEN];
        assert !SerialAt(s, n + i);
      }
    }
  }

  const MAX_SERIALS: nat := Pow10(14)

  /** A marker's own number stays below fifteen digits. */
  lemma MarkerHasNoSerial(n: nat)
    requires n < MAX_SERIALS
    ensures NoSerial(Marker(n)) && Marker(n)[0] == '*' && Marker(n)[|Marker(n)| - 1] == '*'
  {
    if n > 1 {
      var head, tail: string := "**REDACTED-", "**";
      DecimalLength(n, 14);
      NoSerialConcat(head, Decimal(n));
      NoSerialConcat(head + Decimal(n), tail);
    }
  }

  lemma AliasHasNoSerial(serial: string, aliases: AliasMap)
    requires Valid(aliases) && |Alias(serial, aliases).1| < MAX_SERIALS
    ensures var marker := Alias(serial, aliases).0;
      NoSerial(marker) && marker != "" && marker[0] == '*' && marker[|marker| - 1] == '*'
  {
    AliasKeepsTable(serial, aliases);
    var (marker, after) := Alias(serial, aliases);
    var n: nat :| n <= |after| && IsMarker(marker, n);
    MarkerHasNoSerial(n);
  }

  lemma {:induction false} RunsLeaveNoSerial(s: string, aliases: AliasMap)
    requires Valid(aliases) && |RedactRuns(s, aliases).1| < MAX_SERIALS
    ensures NoSerial(RedactRuns(s, aliases).0)
    ensures s != "" && !IsSerialChar(s[0]) ==>
      RedactRuns(s, aliases).0 != "" && RedactRuns(s, aliases).0[0] == s[0]
    decreases |s|
  {
    hide RedactRuns;
    if s == "" {
      NothingLeft(aliases);
    } else {
      var n := Piece(s);
      if RunLength(s) >= MIN_SERIAL_LEN {
        ReplacedStep(s, aliases);
        AliasKeepsTable(s[..n], aliases);
        var (marker, after) := Alias(s[..n], aliases);
        RunsKeepTable(s[n..], after);
        ExtendsGrows(after, RedactRuns(s[n..], after).1);
        RunsLeaveNoSerial(s[n..], after);
        AliasHasNoSerial(s[..n], aliases);
        NoSerialConcat(marker, RedactRuns(s[n..], after).0);
      } else {
        KeptStep(s, aliases);
        NothingLeft(aliases);
        RunsLeaveNoSerial(s[n..], aliases);
        NoSerialConcat(s[..n], RedactRuns(s[n..], aliases).0);
      }
    }
  }

  /** A string the pass leaves alone, whatever the table holds. */
  ghost predicate Settled(s: string) {
    NoSerial(s) && DecodeSerial(s) == None
  }

  lemma {:induction false} NoSerialIsUntouched(s: string, aliases: AliasMap)
    requires NoSerial(s)
    ensures RedactRuns(s, aliases) == (s, aliases)
    decreases |s|
  {
    hide RedactRuns;
    if s == "" {
      NothingLeft(aliases);
    } else {
      var n := Piece(s);
      assert !SerialAt(s, 0);
      KeptStep(s, aliases);
      NoSerialSuffix(s, n);
      NoSerialIsUntouched(s[n..], aliases);
      assert s[..n] + s[n..] == s;
    }
  }

  /** The substitution either changes nothing or writes a star. */
  lemma {:induction false} RunsWriteAStar(s: string, aliases: AliasMap)
    requires Valid(aliases)
    ensures RedactRuns(s, aliases).0 == s || '*' in RedactRuns(s, aliases).0
    decreases |s|
  {
    hide RedactRuns;
    if s == "" {
      NothingLeft(aliases);
    } else {
      var n := Piece(s);
      if RunLength(s) >= MIN_SERIAL_LEN {
        AliasKeepsTable(s[..n], aliases);
        ReplacedStep(s, aliases);
        var (marker, after) := Alias(s[..n], aliases);
        var k: nat :| k <= |after| && IsMarker(marker, k);
        assert RedactRuns(s, aliases).0[0] == '*';
      } else {
        KeptStep(s, aliases);
        RunsWriteAStar(s[n..], aliases);
        assert s[..n] + s[n..] == s;
      }
    }
  }

  /** What comes out holds no serial and is no encoded serial: a second pass does nothing. */
  lemma RedactedTextIsSettled(s: string, aliases: AliasMap)
    requires Valid(aliases) && |RedactText(s, aliases).1| < MAX_SERIALS
    ensures Settled(RedactText(s, aliases).0)
  {
    var (out, after) := RedactText(s, aliases);
    match DecodeSerial(s) {
      case Some(serial) =>
        AliasHasNoSerial(serial, aliases);
        StarIsNoBase64(out, 0);
      case None =>
        RunsLeaveNoSerial(s, aliases);
        RunsWriteAStar(s, aliases);
        if out != s {
          var i :| 0 <= i < |out| && out[i] == '*';
          StarIsNoBase64(out, i);
        }
    }
  }

  lemma SettledIsUntouched(s: string, aliases: AliasMap)
    requires Settled(s)
    ensures RedactText(s, aliases) == (s, aliases)
  {
    NoSerialIsUntouched(s, aliases);
  }

  // ----------------------------------------------------------------- inversion

  predicate StarFree(s: string) {
    forall i | 0 <= i < |s| :: s[i] != '*'
  }

  function StarFreeLength(s: string): (n: nat)
    ensures n <= |s|
  {
    if s == "" || s[0] == '*' then 0 else 1 + StarFreeLength(s[1..])
  }

  /** Length of the placeholder-shaped text a string starts with: two stars, a body, two stars. */
  function EnclosedLength(s: string): (n: nat)
    ensures n <= |s|
  {
    if |s| < 4 || s[0] != '*' || s[1] != '*' then 0
    else
      var n := 4 + StarFreeLength(s[2..]);
      if n <= |s| && s[n - 2] == '*' && s[n - 1] == '*' then n else 0
  }

  /** Read the placeholders of a finished table back into serials. */
  ghost function Unredact(s: string, aliases: AliasMap): string
    decreases |s|
  {
    if s == "" then ""
    else
      var n := EnclosedLength(s);
      if n > 0 && exists k :: k in aliases && aliases[k] == s[..n] then
        var k :| k in aliases && aliases[k] == s[..n];
        k + Unredact(s[n..], aliases)
      else s[..1] + Unredact(s[1..], aliases)
  }

  /** The serial an encoded serial stands for, and every other string itself. */
  function Canonical(s: string): string {
    match DecodeSerial(s)
    case Some(serial) => serial
    case None => s
  }

  lemma {:induction false} StarFreePrefix(a: string, b: string)
    requires StarFree(a) && b != "" && b[0] == '*'
    ensures StarFreeLength(a + b) == |a|
  {
    if a == "" {
      assert a + b == b;
    } else {
      assert (a + b)[1..] == a[1..] + b;
      StarFreePrefix(a[1..], b);
    }
  }

  lemma EnclosedBody(body: string, rest: string)
    requires StarFree(body)
    ensures EnclosedLength("**" + body + "**" + rest) == 4 + |body|
  {
    var stars: string := "**";
    var s := stars + body + stars + rest;
    var tail := stars + rest;
    assert s[2..] == body + tail;
    StarFreePrefix(body, tail);
    assert s[2 + |body|] == tail[0] && s[3 + |body|] == tail[1];
  }

  lemma UnredactMarker(serial: string, rest: string, aliases: AliasMap)
    requires Valid(aliases) && serial in aliases
    ensures Unredact(aliases[serial] + rest, aliases) == serial + Unredact(rest, aliases)
  {
    var n: nat :| n <= |aliases| && IsMarker(aliases[serial], n);
    var marker := aliases[serial];
    EnclosedBody(MarkerBody(n), rest);
    assert (marker + rest)[..|marker|] == marker && (marker + rest)[|marker|..] == rest;
  }

  lemma UnredactStep(s: string, aliases: AliasMap)
    requires s != "" && s[0] != '*'
    ensures Unredact(s, aliases) == s[..1] + Unredact(s[1..], aliases)
  {
  }

  lemma {:induction false} UnredactPlain(a: string, b: string, aliases: AliasMap)
    requires StarFree(a)
    ensures Unredact(a + b, aliases) == a + Unredact(b, aliases)
    decreases |a|
  {
    hide Unredact;
    if a == "" {
      assert a + b == b;
      assert a + Unredact(b, aliases) == Unredact(b, aliases);
    } else {
      var s := a + b;
      assert s[1..] == a[1..] + b && s[..1] == a[..1];
      UnredactStep(s, aliases);
      UnredactPlain(a[1..], b, aliases);
      assert a[..1] + (a[1..] + Unredact(b, aliases)) == a + Unredact(b, aliases);
    }
  }

  lemma UnredactNothing(aliases: AliasMap)
    ensures Unredact("", aliases) == ""
  {
  }

  lemma {:induction false} UnredactRuns(s: string, aliases: AliasMap, final: AliasMap)
    requires StarFree(s) && Valid(aliases) && Valid(final)
    requires Extends(RedactRuns(s, aliases).1, final)
    ensures Unredact(RedactRuns(s, aliases).0, final) == s
    decreases |s|
  {
    hide RedactRuns, Unredact, Alias;
    if s == "" {
      NothingLeft(aliases);
      UnredactNothing(final);
    } else {
      var n := Piece(s);
      assert s[..n] + s[n..] == s;
      if RunLength(s) >= MIN_SERIAL_LEN {
        AliasKeepsTable(s[..n], aliases);
        var (marker, after) := Alias(s[..n], aliases);
        ReplacedStep(s, aliases);
        RunsKeepTable(s[n..], after);
        UnredactRuns(s[n..], after, final);
        UnredactMarker(s[..n], RedactRuns(s[n..], after).0, final);
      } else {
        KeptStep(s, aliases);
        UnredactRuns(s[n..], aliases, final);
        UnredactPlain(s[..n], RedactRuns(s[n..], aliases).0, final);
      }
    }
  }

  /** With the finished table, redaction of a string without stars can be undone. */
  lemma UnredactText(s: string, aliases: AliasMap, final: AliasMap)
    requires StarFree(s) && Valid(aliases) && Valid(final)
    requires Extends(RedactText(s, aliases).1, final)
    ensures Unredact(RedactText(s, aliases).0, final) == Canonical(s)
  {
    match DecodeSerial(s)
    case Some(serial) =>
      AliasKeepsTable(serial, aliases);
      var none: string := "";
      UnredactMarker(serial, none, final);
      assert final[serial] + none == final[serial] && serial + none == serial;
    case None =>
      UnredactRuns(s, aliases, final);
  }

  // ------------------------------------------------- what gets an alias at all

  /** A run of fifteen or more serial characters that cannot be made longer. */
  predicate MaximalRun(s: string, i: nat, j: nat) {
    && i + MIN_SERIAL_LEN <= j <= |s|
    && AllSerialChars(s[i..j])
    && (i == 0 || !IsSerialChar(s[i - 1]))
    && (j == |s| || !IsSerialChar(s[j]))
  }

  ghost predicate HoldsRun(s: string, serial: string) {
    exists i: nat, j: nat :: MaximalRun(s, i, j) && s[i..j] == serial
  }

  lemma RunsOfRest(s: string, n: nat, serial: string)
    requires 0 < n <= |s| && (n == |s| || !IsSerialChar(s[n - 1]) || !IsSerialChar(s[n]))
    ensures HoldsRun(s[n..], serial) ==> HoldsRun(s, serial)
    ensures HoldsRun(s, serial) ==>
      (HoldsRun(s[n..], serial) || exists i: nat, j: nat :: MaximalRun(s, i, j) && i < n && s[i..j] == serial)
  {
    var t := s[n..];
    if HoldsRun(t, serial) {
      var i: nat, j: nat :| MaximalRun(t, i, j) && t[i..j] == serial;
      assert s[n + i..n + j] == t[i..j];
      assert MaximalRun(s, n + i, n + j);
    }
    if HoldsRun(s, serial) {
      var i: nat, j: nat :| MaximalRun(s, i, j) && s[i..j] == serial;
      if i >= n {
        assert t[i - n..j - n] == s[i..j];
        assert MaximalRun(t, i - n, j - n);
      }
    }
  }

  /** The only run that can start inside the first piece is the piece itself. */
  lemma RunInFirstPiece(s: string, i: nat, j: nat)
    requires s != "" && MaximalRun(s, i, j) && i < Piece(s)
    ensures i == 0 && j == Piece(s) == RunLength(s)
  {
    var n := RunLength(s);
    assert forall k | 0 <= k < n :: s[k] == s[..n][k];
    assert forall k | i <= k < j :: s[k] == s[i..j][k - i];
  }

  /** The pass gives an alias to exactly the maximal runs, nothing longer and nothing shorter. */
  lemma {:induction false} ExactlyTheRunsAreAliased(s: string, aliases: AliasMap, serial: string)
    ensures serial in RedactRuns(s, aliases).1 <==> serial in aliases || HoldsRun(s, serial)
    decreases |s|
  {
    hide RedactRuns;
    if s == "" {
      NothingLeft(aliases);
    } else {
      var n := Piece(s);
      RunsOfRest(s, n, serial);
      forall i: nat, j: nat | MaximalRun(s, i, j) && i < n
        ensures i == 0 && j == n == RunLength(s)
      {
        RunInFirstPiece(s, i, j);
      }
      if RunLength(s) >= MIN_SERIAL_LEN {
        ReplacedStep(s, aliases);
        assert s[0..n] == s[..n];
        assert MaximalRun(s, 0, n);
        ExactlyTheRunsAreAliased(s[n..], Alias(s[..n], aliases).1, serial);
      } else {
        KeptStep(s, aliases);
        ExactlyTheRunsAreAliased(s[n..], aliases, serial);
      }
    }
  }

  // ------------------------------------------------------ one alias per serial

  /** Redacting again with a later table of the same pass gives the same text. */
  lemma {:induction false} RunsAreStable(s: string, aliases: AliasMap, later: AliasMap)
    requires Valid(aliases) && Extends(RedactRuns(s, aliases).1, later)
    ensures RedactRuns(s, later) == (RedactRuns(s, aliases).0, later)
    decreases |s|
  {
    if s != "" {
      var n := Piece(s);
      if RunLength(s) >= MIN_SERIAL_LEN {
        AliasKeepsTable(s[..n], aliases);
        var (marker, after) := Alias(s[..n], aliases);
        RunsKeepTable(s[n..], after);
        RunsAreStable(s[n..], after, later);
      } else {
        RunsAreStable(s[n..], aliases, later);
      }
    }
  }

  lemma {:induction false} WholeRun(s: string)
    requires AllSerialChars(s)
    ensures RunLength(s) == |s|
  {
    if s != "" {
      WholeRun(s[1..]);
    }
  }

  lemma WholeSerial(serial: string, aliases: AliasMap)
    requires IsSerial(serial)
    ensures RedactRuns(serial, aliases) == Alias(serial, aliases)
  {
    WholeRun(serial);
    assert serial[..|serial|] == serial;
    var (marker, after) := Alias(serial, aliases);
    assert marker + RedactRuns(serial[|serial|..], after).0 == marker;
  }

  /** With a later table of the same pass, what stands for a string depends on its canonical form only. */
  lemma RedactionOfCanonical(s: string, t: string, aliases: AliasMap, later: AliasMap)
    requires Valid(aliases) && Extends(RedactText(s, aliases).1, later)
    requires Canonical(s) == Canonical(t)
    ensures RedactText(t, later) == (RedactText(s, aliases).0, later)
  {
    if DecodeSerial(s).Some? {
      AliasKeepsTable(Canonical(s), aliases);
      if DecodeSerial(t).None? {
        WholeSerial(t, later);
      }
    } else if DecodeSerial(t).Some? {
      WholeSerial(s, aliases);
      AliasKeepsTable(s, aliases);
    } else {
      RunsAreStable(s, aliases, later);
    }
  }

  /**
   Two strings of one pass read the same afterwards exactly when one serial, plain
   or encoded, stands behind both (or they are one string): distinct battery packs
   never collapse.
   */
  lemma SameRedactionIffSameCanonical(s: string, t: string, aliases: AliasMap, later: AliasMap)
    requires StarFree(s) && StarFree(t) && Valid(aliases) && Valid(later)
    requires Extends(RedactText(s, aliases).1, later)
    ensures RedactText(s, aliases).0 == RedactText(t, later).0 <==> Canonical(s) == Canonical(t)
  {
    if Canonical(s) == Canonical(t) {
      RedactionOfCanonical(s, t, aliases, later);
    }
    TextKeepsTable(t, later);
    var final := RedactText(t, later).1;
    UnredactText(s, aliases, final);
    UnredactText(t, later, final);
  }

  /**
   A serial met after its own encoded form gets the same alias, unless the plain
   form is long enough to be an encoded serial itself.
   */
  lemma EncodedSharesAlias(serial: string, aliases: AliasMap)
    requires IsSerial(serial) && Valid(aliases)
    ensures RedactText(EncodeSerial(serial), aliases) == Alias(serial, aliases)
    ensures RedactText(serial, Alias(serial, aliases).1).0 == Alias(serial, aliases).0
      <==> DecodeSerial(serial) == None
  {
    var encoded := EncodeSerial(serial);
    EncodedSerialIsRecognised(serial);
    AliasKeepsTable(serial, aliases);
    forall i | 0 <= i < |encoded| ensures encoded[i] != '*' {
      if encoded[i] == '*' {
        StarIsNoBase64(encoded, i);
      }
    }
    if DecodeSerial(serial).Some? {
      DecodedSerialIsShorter(serial);
    }
    SameRedactionIffSameCanonical(encoded, serial, aliases, RedactText(encoded, aliases).1);
  }
}
