/**
 The second pass over device names: serial endings are replaced in one
 left-to-right alternation that matches the placeholders first and keeps them.
 */
module TailMask {
  import opened Text
  import opened Base64
  import opened Aliases

  const NAME_SERIAL_TAIL := 4

  /** How two characters compare without case: ASCII, and the four letters that fold into it. */
  function Fold(c: char): char {
    if 'A' <= c <= 'Z' then (c as int - 'A' as int + 'a' as int) as char
    else if c == '\U{0130}' || c == '\U{0131}' then 'i'
    else if c == '\U{017F}' then 's'
    else if c == '\U{212A}' then 'k'
    else c
  }

  predicate BothIn(a: char, b: char, group: string) {
    a in group && b in group
  }

  /** Two characters are one without case exactly when they are equal or stand in one of these groups. */
  lemma FoldIff(a: char, b: char)
    ensures Fold(a) == Fold(b) <==>
      || a == b
      || ('A' <= a <= 'Z' && b as int == a as int + 32) || ('A' <= b <= 'Z' && a as int == b as int + 32)
      || BothIn(a, b, ['i', 'I', '\U{0130}', '\U{0131}'])
      || BothIn(a, b, ['s', 'S', '\U{017F}']) || BothIn(a, b, ['k', 'K', '\U{212A}'])
  {
  }

  predicate SameFold(a: string, b: string) {
    |a| == |b| && forall i | 0 <= i < |a| :: Fold(a[i]) == Fold(b[i])
  }

  predicate StartsWith(s: string, t: string) {
    |t| <= |s| && SameFold(s[..|t|], t)
  }

  function DigitRun(s: string): (n: nat)
    ensures n <= |s|
  {
    if s == "" || !IsDigit(s[0]) then 0 else 1 + DigitRun(s[1..])
  }

  /** Length of the placeholder a string starts with, zero when it starts with none. */
  function MarkerMatch(s: string): (n: nat)
    ensures n <= |s| && (n == 0 || n >= 12)
    ensures n > 0 ==> s[0] == s[1] == s[n - 2] == s[n - 1] == '*'
  {
    if !StartsWith(s, "**REDACTED") then 0
    else
      assert Fold(s[0]) == Fold('*') && Fold(s[1]) == Fold('*') by {
        var head: string := "**REDACTED";
        assert SameFold(s[..|head|], head) && s[0] == s[..|head|][0] && s[1] == s[..|head|][1];
      }
      if |s| >= 12 && s[10] == '*' && s[11] == '*' then 12
      else if |s| > 10 && s[10] == '-' then
        var n := 13 + DigitRun(s[11..]);
        if n > 13 && n <= |s| && s[n - 2] == '*' && s[n - 1] == '*' then n else 0
      else 0
  }

  /** Length of the first ending that matches at the start of a string. */
  function TailMatch(s: string, tails: seq<string>): (n: nat)
    ensures n <= |s|
    ensures n > 0 ==> exists t | t in tails :: |t| == n && StartsWith(s, t)
    ensures n == 0 ==> forall t | t in tails && t != "" :: !StartsWith(s, t)
  {
    if tails == [] then 0
    else if tails[0] != "" && StartsWith(s, tails[0]) then |tails[0]|
    else TailMatch(s, tails[1..])
  }

  /** What one match consumes and writes: placeholders first, then the endings, else one character. */
  function Step(s: string, tails: seq<string>): (r: (nat, string))
    requires s != ""
    ensures 0 < r.0 <= |s| && r.1 != ""
  {
    var m, n := MarkerMatch(s), TailMatch(s, tails);
    if m > 0 then (m, s[..m])
    else if n > 0 then (n, if n >= 2 && s[0] == s[1] == '*' then s[..n] else REDACTED)
    else (1, s[..1])
  }

  /** The substitution of the whole alternation, leftmost match first. */
  function Substitute(s: string, tails: seq<string>): string
    decreases |s|
  {
    if s == "" then "" else Step(s, tails).1 + Substitute(s[Step(s, tails).0..], tails)
  }

  /** A step copies what it consumed, or turns one ending into the bare placeholder. */
  lemma StepKind(s: string, tails: seq<string>)
    requires s != ""
    ensures var (n, piece) := Step(s, tails);
      piece == s[..n] || (piece == REDACTED && exists t | t in tails :: |t| == n && StartsWith(s, t))
  {
  }

  lemma SubstituteStep(s: string, tails: seq<string>)
    requires s != ""
    ensures Substitute(s, tails) == Step(s, tails).1 + Substitute(s[Step(s, tails).0..], tails)
  {
  }

  function MaskTails(text: string, tails: seq<string>): string {
    if tails == [] then text else Substitute(text, tails)
  }

  /** The endings a generated name can carry, each once, none from a serial whose ends overlap. */
  method SerialTails(serials: seq<string>) returns (tails: seq<string>)
    ensures forall t | t in tails :: |t| == 4
    ensures forall t :: t in tails <==> exists s | s in serials :: |s| >= 8 && t == s[|s| - 4..]
    ensures forall i, j | 0 <= i < j < |tails| :: tails[i] != tails[j]
  {
    tails := [];
    for n := 0 to |serials|
      invariant forall t | t in tails :: |t| == 4
      invariant forall t :: t in tails <==> exists s | s in serials[..n] :: |s| >= 8 && t == s[|s| - 4..]
      invariant forall i, j | 0 <= i < j < |tails| :: tails[i] != tails[j]
    {
      var serial := serials[n];
      assert serials[..n + 1] == serials[..n] + [serial];
      if |serial| < NAME_SERIAL_TAIL * 2 {
        continue;
      }
      var tail := serial[|serial| - NAME_SERIAL_TAIL..];
      if tail !in tails {
        tails := tails + [tail];
      }
    }
    assert serials[..|serials|] == serials;
  }

  // -------------------------------------------------- the text between markers

  /** Cut a string at its placeholders: n markers and the n + 1 gaps around them. */
  function Split(s: string): (r: (seq<string>, seq<string>))
    ensures |r.0| == |r.1| + 1
    decreases |s|
  {
    if s == "" then ([""], [])
    else if MarkerMatch(s) > 0 then
      var rest := Split(s[MarkerMatch(s)..]);
      ([""] + rest.0, [s[..MarkerMatch(s)]] + rest.1)
    else
      var rest := Split(s[1..]);
      ([s[..1] + rest.0[0]] + rest.0[1..], rest.1)
  }

  function Gaps(s: string): (gaps: seq<string>)
    ensures |gaps| > 0
  {
    Split(s).0
  }

  function Marks(s: string): seq<string> {
    Split(s).1
  }

  predicate TailAt(s: string, i: nat, t: string) {
    i + |t| <= |s| && SameFold(s[i..i + |t|], t)
  }

  /** No known ending anywhere in a string, whatever its case. */
  ghost predicate Clear(s: string, tails: seq<string>) {
    forall i: nat, t | i <= |s| && t in tails :: !TailAt(s, i, t)
  }

  ghost predicate SubsequenceOf<T>(a: seq<T>, b: seq<T>) {
    if a == [] then true
    else if b == [] then false
    else SubsequenceOf(a, b[1..]) || (a[0] == b[0] && SubsequenceOf(a[1..], b[1..]))
  }

  /** Stars occur in whole placeholders only. */
  predicate Marked(s: string)
    decreases |s|
  {
    || s == ""
    || (MarkerMatch(s) > 0 && Marked(s[MarkerMatch(s)..]))
    || (s[0] != '*' && Marked(s[1..]))
  }

  /** Endings that cannot match inside the stars of a placeholder. */
  predicate ProperTails(tails: seq<string>) {
    forall t | t in tails :: t != "" && StarFree(t)
  }

  // -------------------------------------------------------- how pieces combine

  /** A whole placeholder, nothing more. */
  predicate IsPlaceholder(s: string) {
    s != "" && MarkerMatch(s) == |s|
  }

  lemma {:induction false} AllDigitsRun(s: string, n: nat)
    requires n <= |s|
    ensures AllDigits(s[..n]) && (n == |s| || !IsDigit(s[n])) <==> DigitRun(s) == n
    decreases |s|
  {
    if s != "" && n > 0 {
      AllDigitsRun(s[1..], n - 1);
      assert s[..n] == [s[0]] + s[1..][..n - 1];
    }
  }

  /** A placeholder is the bare marker or a numbered one, without case, and nothing else. */
  lemma PlaceholderIff(s: string)
    ensures IsPlaceholder(s) <==>
      || SameFold(s, "**REDACTED**")
      || (|s| >= 14 && SameFold(s[..11], "**REDACTED-") && AllDigits(s[11..|s| - 2]) && s[|s| - 2..] == "**")
  {
    var head: string, bare: string, numbered: string := "**REDACTED", "**REDACTED**", "**REDACTED-";
    assert |s| >= 12 ==> forall i | 0 <= i < 10 :: s[..10][i] == s[i];
    assert |s| >= 12 ==> forall i | 0 <= i < 11 :: s[..11][i] == s[i];
    assert forall i | 0 <= i < 10 :: head[i] == bare[i] == numbered[i];
    StarAndDash();
    hide Fold;
    if |s| >= 14 {
      AllDigitsRun(s[11..], |s| - 13);
      assert s[11..][..|s| - 13] == s[11..|s| - 2];
    }
  }

  lemma StarAndDash()
    ensures forall c :: (Fold(c) == Fold('*') <==> c == '*') && (Fold(c) == Fold('-') <==> c == '-')
  {
  }

  lemma {:induction false} DigitRunPrefix(a: string, b: string)
    requires DigitRun(a) < |a|
    ensures DigitRun(a + b) == DigitRun(a)
    decreases |a|
  {
    if IsDigit(a[0]) {
      assert (a + b)[1..] == a[1..] + b;
      DigitRunPrefix(a[1..], b);
    }
  }

  lemma PlaceholderPrefix(a: string, b: string)
    requires IsPlaceholder(a)
    ensures MarkerMatch(a + b) == |a|
  {
    assert |a| >= 12;
    assert (a + b)[..10] == a[..10];
    if a[10] != '*' {
      assert (a + b)[11..] == a[11..] + b;
      DigitRunPrefix(a[11..], b);
    }
  }

  lemma PlainIsNoMarker(s: string)
    requires s != "" && s[0] != '*'
    ensures MarkerMatch(s) == 0
  {
  }

  lemma SplitPlaceholder(a: string, b: string)
    requires IsPlaceholder(a)
    ensures Split(a + b) == ([""] + Gaps(b), [a] + Marks(b))
  {
    PlaceholderPrefix(a, b);
    assert (a + b)[..|a|] == a && (a + b)[|a|..] == b;
  }

  lemma SplitPlain(a: string, b: string)
    requires |a| == 1 && a[0] != '*'
    ensures Split(a + b) == ([a + Gaps(b)[0]] + Gaps(b)[1..], Marks(b))
  {
    PlainIsNoMarker(a + b);
    assert (a + b)[..1] == a && (a + b)[1..] == b;
  }

  lemma {:induction false} DigitsRun(a: string, b: string)
    requires AllDigits(a) && (b == "" || !IsDigit(b[0]))
    ensures DigitRun(a + b) == |a|
    decreases |a|
  {
    if a == "" {
      assert a + b == b;
    } else {
      assert (a + b)[1..] == a[1..] + b;
      DigitsRun(a[1..], b);
    }
  }

  lemma MarkerIsPlaceholder(n: nat)
    ensures IsPlaceholder(Marker(n))
  {
    var m := Marker(n);
    var head: string := "**REDACTED";
    assert m[..10] == head;
    if n > 1 {
      var tail: string := "**";
      assert m[11..] == Decimal(n) + tail;
      DigitsRun(Decimal(n), tail);
    }
  }

  /** The serial pass writes whole placeholders between star-free text. */
  lemma {:induction false} PlainThenMarked(a: string, b: string)
    requires StarFree(a) && Marked(b)
    ensures Marked(a + b)
    decreases |a|
  {
    if a == "" {
      assert a + b == b;
    } else {
      assert (a + b)[1..] == a[1..] + b;
      PlainThenMarked(a[1..], b);
    }
  }

  lemma PlaceholderThenMarked(a: string, b: string)
    requires IsPlaceholder(a) && Marked(b)
    ensures Marked(a + b)
  {
    PlaceholderPrefix(a, b);
    assert (a + b)[|a|..] == b;
  }

  lemma AliasIsPlaceholder(serial: string, aliases: AliasMap)
    requires Valid(aliases)
    ensures IsPlaceholder(Alias(serial, aliases).0)
  {
    AliasKeepsTable(serial, aliases);
    var (marker, after) := Alias(serial, aliases);
    var n: nat :| n <= |after| && IsMarker(marker, n);
    MarkerIsPlaceholder(n);
  }

  lemma {:induction false} RunsAreMarked(s: string, aliases: AliasMap)
    requires StarFree(s) && Valid(aliases)
    ensures Marked(RedactRuns(s, aliases).0)
    decreases |s|
  {
    hide RedactRuns, MarkerMatch;
    if s == "" {
      NothingLeft(aliases);
    } else {
      var n := Piece(s);
      if RunLength(s) >= MIN_SERIAL_LEN {
        ReplacedStep(s, aliases);
        AliasKeepsTable(s[..n], aliases);
        AliasIsPlaceholder(s[..n], aliases);
        var (marker, after) := Alias(s[..n], aliases);
        RunsAreMarked(s[n..], after);
        PlaceholderThenMarked(marker, RedactRuns(s[n..], after).0);
      } else {
        KeptStep(s, aliases);
        RunsAreMarked(s[n..], aliases);
        PlainThenMarked(s[..n], RedactRuns(s[n..], aliases).0);
      }
    }
  }

  lemma RedactedTextIsMarked(s: string, aliases: AliasMap)
    requires StarFree(s) && Valid(aliases)
    ensures Marked(RedactText(s, aliases).0)
  {
    match DecodeSerial(s)
    case Some(serial) =>
      AliasIsPlaceholder(serial, aliases);
      var (marker, after) := Alias(serial, aliases);
      var none: string := "";
      PlaceholderThenMarked(marker, none);
      assert marker + none == marker;
    case None =>
      RunsAreMarked(s, aliases);
  }

  // ------------------------------------------------- completeness and no damage

  lemma {:induction false} DigitRunWithin(s: string, k: nat)
    requires DigitRun(s) <= k <= |s|
    ensures DigitRun(s[..k]) == DigitRun(s)
    decreases |s|
  {
    if s != "" && IsDigit(s[0]) {
      assert s[..k][1..] == s[1..][..k - 1];
      DigitRunWithin(s[1..], k - 1);
    }
  }

  lemma MatchIsPlaceholder(s: string)
    requires MarkerMatch(s) > 0
    ensures IsPlaceholder(s[..MarkerMatch(s)])
  {
    var n := MarkerMatch(s);
    assert s[..n][..10] == s[..10];
    if s[10] != '*' {
      assert s[..n][11..] == s[11..][..n - 11];
      DigitRunWithin(s[11..], n - 11);
    }
  }

  lemma StarFreeSuffix(s: string, k: nat)
    requires k <= |s| && StarFree(s)
    ensures StarFree(s[k..])
  {
    forall i | 0 <= i < |s[k..]| ensures s[k..][i] != '*' {
      assert s[k..][i] == s[k + i];
    }
  }

  lemma MarkedStep(s: string)
    requires s != "" && s[0] != '*'
    ensures (Marked(s) <==> Marked(s[1..])) && Marks(s) == Marks(s[1..])
  {
    PlainIsNoMarker(s);
  }

  lemma {:induction false} MarkedAfterPlain(s: string, n: nat)
    requires Marked(s) && n <= |s| && StarFree(s[..n])
    ensures Marked(s[n..]) && Marks(s) == Marks(s[n..])
    decreases n
  {
    hide Marked, Split;
    if n == 0 {
      assert s[0..] == s;
    } else {
      assert s[0] == s[..n][0];
      MarkedStep(s);
      StarFreeSuffix(s[..n], 1);
      assert s[1..][..n - 1] == s[..n][1..] && s[1..][n - 1..] == s[n..];
      MarkedAfterPlain(s[1..], n - 1);
    }
  }

  lemma TailMatchIsPlain(s: string, tails: seq<string>)
    requires ProperTails(tails)
    ensures StarFree(s[..TailMatch(s, tails)])
  {
    var n := TailMatch(s, tails);
    if n > 0 {
      var t :| t in tails && |t| == n && StartsWith(s, t);
      forall i | 0 <= i < n ensures s[..n][i] != '*' {
        assert t[i] != '*' && Fold(s[..n][i]) == Fold(t[i]);
      }
    }
  }

  /** An ending at the front of a gap would have matched at the front of the text. */
  lemma ClearAtFront(c: string, gap: string, s: string, tails: seq<string>)
    requires |c| == 1 && Clear(gap, tails) && c + gap <= s
    requires ProperTails(tails) && TailMatch(s, tails) == 0
    ensures Clear(c + gap, tails)
  {
    forall i: nat, t | i <= |c + gap| && t in tails
      ensures !TailAt(c + gap, i, t)
    {
      if i + |t| <= |c + gap| {
        if i == 0 {
          assert (c + gap)[0..|t|] == s[..|t|];
          assert !StartsWith(s, t);
        } else {
          assert (c + gap)[i..i + |t|] == gap[i - 1..i - 1 + |t|];
          assert !TailAt(gap, i - 1, t);
        }
      }
    }
  }

  lemma ClearNothing(tails: seq<string>)
    requires ProperTails(tails)
    ensures Clear("", tails)
  {
  }

  lemma {:induction false} SubsequenceExtends<T>(x: T, a: seq<T>, b: seq<T>)
    requires SubsequenceOf(a, b)
    ensures SubsequenceOf(a, [x] + b) && SubsequenceOf([x] + a, [x] + b)
  {
    assert ([x] + b)[1..] == b && ([x] + a)[1..] == a;
  }

  ghost predicate AllClear(gaps: seq<string>, tails: seq<string>) {
    forall i | 0 <= i < |gaps| :: Clear(gaps[i], tails)
  }

  lemma ClearAfterPlaceholder(p: string, rest: string, tails: seq<string>)
    requires IsPlaceholder(p) && ProperTails(tails) && AllClear(Gaps(rest), tails)
    ensures AllClear(Gaps(p + rest), tails)
    ensures Gaps(p + rest)[0] == "" && Marks(p + rest) == [p] + Marks(rest)
  {
    ClearNothing(tails);
    SplitPlaceholder(p, rest);
  }

  lemma ClearAfterPlain(c: string, rest: string, s: string, tails: seq<string>)
    requires |c| == 1 && c[0] != '*' && AllClear(Gaps(rest), tails) && c + Gaps(rest)[0] <= s
    requires ProperTails(tails) && TailMatch(s, tails) == 0
    ensures AllClear(Gaps(c + rest), tails)
    ensures Gaps(c + rest)[0] <= s && Marks(c + rest) == Marks(rest)
  {
    SplitPlain(c, rest);
    ClearAtFront(c, Gaps(rest)[0], s, tails);
  }

  /** What is left of `s` outside placeholders holds no ending, and its placeholders are all there in order. */
  ghost predicate Masked(s: string, out: string, tails: seq<string>) {
    && AllClear(Gaps(out), tails)
    && Gaps(out)[0] <= s
    && SubsequenceOf(Marks(s), Marks(out))
  }

  lemma MaskedPlaceholder(s: string, tails: seq<string>)
    requires ProperTails(tails) && MarkerMatch(s) > 0
    requires Masked(s[MarkerMatch(s)..], Substitute(s[MarkerMatch(s)..], tails), tails)
    ensures Masked(s, Substitute(s, tails), tails)
  {
    hide MarkerMatch, TailMatch, Split, SubsequenceOf, AllClear;
    var m := MarkerMatch(s);
    var rest := Substitute(s[m..], tails);
    MatchIsPlaceholder(s);
    ClearAfterPlaceholder(s[..m], rest, tails);
    SplitPlaceholder(s[..m], s[m..]);
    assert s[..m] + s[m..] == s;
    SubsequenceExtends(s[..m], Marks(s[m..]), Marks(rest));
  }

  lemma MaskedTail(s: string, tails: seq<string>)
    requires Marked(s) && ProperTails(tails) && MarkerMatch(s) == 0 && TailMatch(s, tails) > 0
    requires Masked(s[TailMatch(s, tails)..], Substitute(s[TailMatch(s, tails)..], tails), tails)
    ensures Masked(s, Substitute(s, tails), tails)
  {
    hide MarkerMatch, TailMatch, Split, SubsequenceOf, AllClear;
    var n := TailMatch(s, tails);
    var rest := Substitute(s[n..], tails);
    TailMatchIsPlain(s, tails);
    MarkedAfterPlain(s, n);
    assert s[0] == s[..n][0];
    MarkerIsPlaceholder(1);
    ClearAfterPlaceholder(REDACTED, rest, tails);
    SubsequenceExtends(REDACTED, Marks(s), Marks(rest));
  }

  lemma MaskedPlain(s: string, tails: seq<string>)
    requires s != "" && s[0] != '*' && ProperTails(tails) && TailMatch(s, tails) == 0
    requires Masked(s[1..], Substitute(s[1..], tails), tails)
    ensures Masked(s, Substitute(s, tails), tails)
  {
    hide TailMatch, Split, SubsequenceOf, AllClear;
    var rest := Substitute(s[1..], tails);
    PlainIsNoMarker(s);
    SplitPlain(s[..1], s[1..]);
    assert s[..1] + s[1..] == s;
    ClearAfterPlain(s[..1], rest, s, tails);
  }

  /** The substitution is complete and harmless on text whose stars are all in placeholders. */
  lemma {:induction false} SubstituteIsComplete(s: string, tails: seq<string>)
    requires Marked(s) && ProperTails(tails)
    ensures Masked(s, Substitute(s, tails), tails)
    decreases |s|
  {
    if s == "" {
      ClearNothing(tails);
    } else {
      hide Masked;
      var m, n := MarkerMatch(s), TailMatch(s, tails);
      if m > 0 {
        SubstituteIsComplete(s[m..], tails);
        MaskedPlaceholder(s, tails);
      } else if n > 0 {
        TailMatchIsPlain(s, tails);
        MarkedAfterPlain(s, n);
        SubstituteIsComplete(s[n..], tails);
        MaskedTail(s, tails);
      } else {
        SubstituteIsComplete(s[1..], tails);
        MaskedPlain(s, tails);
      }
    }
  }

  /** `out` is `s` with some known endings turned into the bare placeholder and nothing else changed. */
  ghost predicate OnlyTailsReplaced(s: string, out: string, tails: seq<string>)
    decreases |s|
  {
    || (s == "" && out == "")
    || (s != "" && out != "" && s[0] == out[0] && OnlyTailsReplaced(s[1..], out[1..], tails))
    || (exists t | t in tails && t != "" ::
          StartsWith(s, t) && REDACTED <= out && OnlyTailsReplaced(s[|t|..], out[|REDACTED|..], tails))
  }

  lemma {:induction false} CopiedFront(a: string, s: string, out: string, tails: seq<string>)
    requires OnlyTailsReplaced(s, out, tails)
    ensures OnlyTailsReplaced(a + s, a + out, tails)
    decreases |a|
  {
    if a == "" {
      assert a + s == s && a + out == out;
    } else {
      assert (a + s)[1..] == a[1..] + s && (a + out)[1..] == a[1..] + out;
      CopiedFront(a[1..], s, out, tails);
    }
  }

  lemma TailReplaced(s: string, t: string, rest: string, tails: seq<string>)
    requires t in tails && t != "" && StartsWith(s, t) && OnlyTailsReplaced(s[|t|..], rest, tails)
    ensures OnlyTailsReplaced(s, REDACTED + rest, tails)
  {
    assert (REDACTED + rest)[|REDACTED|..] == rest;
  }

  /** Nothing but endings is ever replaced, whatever the text and the endings. */
  lemma {:induction false} SubstituteReplacesTailsOnly(s: string, tails: seq<string>)
    ensures OnlyTailsReplaced(s, Substitute(s, tails), tails)
    decreases |s|
  {
    if s == "" {
      NothingReplaced(s, tails);
    } else {
      hide Substitute, OnlyTailsReplaced, Step, StartsWith;
      var (n, piece) := Step(s, tails);
      var rest := Substitute(s[n..], tails);
      StepKind(s, tails);
      SubstituteStep(s, tails);
      SubstituteReplacesTailsOnly(s[n..], tails);
      if piece == s[..n] {
        CopiedFront(piece, s[n..], rest, tails);
        assert piece + s[n..] == s;
      } else {
        var t :| t in tails && |t| == n && StartsWith(s, t);
        TailReplaced(s, t, rest, tails);
      }
    }
  }

  lemma {:induction false} ClearTextIsKept(s: string, tails: seq<string>)
    requires Marked(s) && ProperTails(tails) && AllClear(Gaps(s), tails)
    ensures Substitute(s, tails) == s
    decreases |s|
  {
    hide MarkerMatch;
    if s != "" {
      var m := MarkerMatch(s);
      if m > 0 {
        MatchIsPlaceholder(s);
        SplitPlaceholder(s[..m], s[m..]);
        assert s[..m] + s[m..] == s;
        forall i | 0 <= i < |Gaps(s[m..])| ensures Clear(Gaps(s[m..])[i], tails) {
          assert Gaps(s)[i + 1] == Gaps(s[m..])[i];
        }
        ClearTextIsKept(s[m..], tails);
      } else {
        ClearAfterFront(s, tails);
        ClearTextIsKept(s[1..], tails);
        NoTailAtFront(s, tails);
        assert s[..1] + s[1..] == s;
      }
    }
  }

  lemma ClearAfterFront(s: string, tails: seq<string>)
    requires s != "" && MarkerMatch(s) == 0 && AllClear(Gaps(s), tails)
    ensures AllClear(Gaps(s[1..]), tails)
  {
    var g := Gaps(s[1..]);
    forall i | 0 <= i < |g| ensures Clear(g[i], tails) {
      if i > 0 {
        assert Gaps(s)[i] == g[i];
      } else {
        assert Gaps(s)[0] == s[..1] + g[0];
        forall j: nat, t | j <= |g[0]| && t in tails ensures !TailAt(g[0], j, t) {
          if j + |t| <= |g[0]| {
            assert Gaps(s)[0][j + 1..j + 1 + |t|] == g[0][j..j + |t|];
            assert !TailAt(Gaps(s)[0], j + 1, t);
          }
        }
      }
    }
  }

  lemma {:induction false} FrontGap(s: string, k: nat)
    requires k <= |s| && StarFree(s[..k])
    ensures k <= |Gaps(s)[0]| && Gaps(s)[0][..k] == s[..k]
    decreases k
  {
    if k > 0 {
      assert s[0] == s[..k][0];
      PlainIsNoMarker(s);
      assert s[1..][..k - 1] == s[..k][1..];
      FrontGap(s[1..], k - 1);
      assert s[..k] == s[..1] + s[1..][..k - 1];
    }
  }

  lemma FrontTail(gap: string, s: string, t: string)
    requires |t| <= |gap| && |t| <= |s| && gap[..|t|] == s[..|t|]
    ensures TailAt(gap, 0, t) <==> StartsWith(s, t)
  {
    assert gap[0..|t|] == gap[..|t|];
  }

  lemma NoTailAtFront(s: string, tails: seq<string>)
    requires ProperTails(tails) && AllClear(Gaps(s), tails)
    ensures TailMatch(s, tails) == 0
  {
    var n := TailMatch(s, tails);
    assert Clear(Gaps(s)[0], tails);
    if n > 0 {
      var t :| t in tails && |t| == n && StartsWith(s, t);
      TailMatchIsPlain(s, tails);
      FrontGap(s, n);
      FrontTail(Gaps(s)[0], s, t);
    }
  }

  /**
   A name without stars, after the serial pass and the tail pass: no known ending
   is left outside a placeholder, in any case, and no placeholder was damaged.
   */
  lemma NamesAreMasked(name: string, aliases: AliasMap, tails: seq<string>)
    requires StarFree(name) && Valid(aliases) && ProperTails(tails)
    ensures var passed := RedactText(name, aliases).0;
      var masked := MaskTails(passed, tails);
      && AllClear(Gaps(masked), tails)
      && SubsequenceOf(Marks(passed), Marks(masked))
      && OnlyTailsReplaced(passed, masked, tails)
      && (AllClear(Gaps(passed), tails) ==> masked == passed)
  {
    var passed := RedactText(name, aliases).0;
    RedactedTextIsMarked(name, aliases);
    if tails == [] {
      SubsequenceReflexive(Marks(passed));
      NothingReplaced(passed, tails);
    } else {
      SubstituteIsComplete(passed, tails);
      SubstituteReplacesTailsOnly(passed, tails);
      if AllClear(Gaps(passed), tails) {
        ClearTextIsKept(passed, tails);
      }
    }
  }

  lemma NothingReplaced(s: string, tails: seq<string>)
    ensures OnlyTailsReplaced(s, s, tails)
  {
    var none: string := "";
    CopiedFront(s, none, none, tails);
    assert s + none == s;
  }

  lemma {:induction false} SubsequenceReflexive<T>(a: seq<T>)
    ensures SubsequenceOf(a, a)
  {
    if a != [] {
      SubsequenceReflexive(a[1..]);
    }
  }

  // ----------------------------------------------------- masking and the serials

  lemma PlainStep(s: string, tails: seq<string>)
    requires s != "" && Step(s, tails).1[0] != '*'
    ensures Step(s, tails) == (1, s[..1])
  {
    assert REDACTED[0] == '*';
  }

  lemma SubstituteNothing(tails: seq<string>)
    ensures Substitute("", tails) == ""
  {
  }

  /** Text without stars at the front of a result was at the front of the input. */
  lemma {:induction false} PlainFrontIsCopied(s: string, tails: seq<string>, k: nat)
    requires k <= |Substitute(s, tails)| && StarFree(Substitute(s, tails)[..k])
    ensures k <= |s| && s[..k] == Substitute(s, tails)[..k]
    decreases |s|
  {
    hide Substitute;
    if k > 0 && s == "" {
      assert Substitute(s, tails) == "" by { SubstituteNothing(tails); }
    } else if k > 0 {
      var out := Substitute(s, tails);
      var (n, piece) := Step(s, tails);
      var rest := Substitute(s[n..], tails);
      SubstituteStep(s, tails);
      assert out[..k][0] == piece[0];
      PlainStep(s, tails);
      StarFreeSuffix(out[..k], 1);
      assert out[..k][1..] == rest[..k - 1];
      PlainFrontIsCopied(s[1..], tails, k - 1);
      assert s[..k] == s[..1] + s[1..][..k - 1];
    }
  }

  lemma NoSerialFront(s: string, n: nat)
    requires n <= |s| && !NoSerial(s[n..])
    ensures !NoSerial(s)
  {
    if NoSerial(s) {
      NoSerialSuffix(s, n);
    }
  }

  lemma SerialSuffixIsStarFree(w: string, k: nat)
    requires k <= |w| && AllSerialChars(w)
    ensures StarFree(w[k..])
  {
    forall i | 0 <= i < |w[k..]| ensures w[k..][i] != '*' {
      assert w[k..][i] == w[k + i];
    }
  }

  /** A window that starts in a copied piece was in the input. */
  lemma CopiedWindow(s: string, tails: seq<string>, n: nat, i: nat)
    requires i < n <= |s|
    ensures SerialAt(s[..n] + Substitute(s[n..], tails), i) ==> SerialAt(s, i)
  {
    hide Substitute;
    var rest := Substitute(s[n..], tails);
    var out := s[..n] + rest;
    var end := i + MIN_SERIAL_LEN;
    if SerialAt(out, i) {
      if end <= n {
        assert out[i..end] == s[i..end];
      } else {
        assert rest[..end - n] == out[i..end][n - i..];
        SerialSuffixIsStarFree(out[i..end], n - i);
        PlainFrontIsCopied(s[n..], tails, end - n);
        assert s[n..][..end - n] == s[n..end];
        assert out[i..end] == s[i..end];
      }
    }
  }

  /** A serial-shaped window after the tail pass was there before it. */
  lemma {:induction false} SubstituteAddsNoWindow(s: string, tails: seq<string>, i: nat)
    ensures SerialAt(Substitute(s, tails), i) ==> !NoSerial(s)
    decreases |s|
  {
    hide Substitute, SerialAt;
    if s == "" {
      SubstituteNothing(tails);
      NoWindow(i);
    } else {
      var (n, piece) := Step(s, tails);
      var rest := Substitute(s[n..], tails);
      SubstituteStep(s, tails);
      if i >= |piece| {
        SubstituteAddsNoWindow(s[n..], tails, i - |piece|);
        WindowInRest(piece, rest, i);
        if !NoSerial(s[n..]) {
          NoSerialFront(s, n);
        }
      } else if piece == s[..n] {
        CopiedWindow(s, tails, n, i);
        WindowIsSerial(s, i);
      } else {
        StarBreaksWindow(piece + rest, i, 11);
      }
    }
  }

  lemma NoWindow(i: nat)
    ensures !SerialAt("", i)
  {
  }

  lemma WindowInRest(a: string, b: string, i: nat)
    requires i >= |a|
    ensures SerialAt(a + b, i) <==> SerialAt(b, i - |a|)
  {
    if i + MIN_SERIAL_LEN <= |a + b| {
      assert (a + b)[i..i + MIN_SERIAL_LEN] == b[i - |a|..i - |a| + MIN_SERIAL_LEN];
    }
  }

  lemma StarBreaksWindow(s: string, i: nat, k: nat)
    requires i <= k < i + MIN_SERIAL_LEN && k < |s| && s[k] == '*'
    ensures !SerialAt(s, i)
  {
    if i + MIN_SERIAL_LEN <= |s| {
      assert s[i..i + MIN_SERIAL_LEN][k - i] == '*';
    }
  }

  lemma WindowIsSerial(s: string, i: nat)
    ensures SerialAt(s, i) ==> !NoSerial(s)
  {
  }

  lemma {:induction false} SubstituteCopiesOrStars(s: string, tails: seq<string>)
    ensures Substitute(s, tails) == s || '*' in Substitute(s, tails)
    decreases |s|
  {
    hide Substitute;
    if s == "" {
      SubstituteNothing(tails);
    } else {
      var (n, piece) := Step(s, tails);
      SubstituteStep(s, tails);
      if piece[0] == '*' {
        assert Substitute(s, tails)[0] == '*';
      } else {
        SubstituteCopiesOrStars(s[n..], tails);
        assert s[..n] + s[n..] == s;
      }
    }
  }

  /** Masking endings never brings a serial back. */
  lemma MaskedTextIsSettled(s: string, tails: seq<string>)
    requires Settled(s)
    ensures Settled(MaskTails(s, tails))
  {
    var out := MaskTails(s, tails);
    if tails != [] {
      forall i: nat | i < |out| ensures !SerialAt(out, i) {
        SubstituteAddsNoWindow(s, tails, i);
      }
      SubstituteCopiesOrStars(s, tails);
      if out != s {
        var i :| 0 <= i < |out| && out[i] == '*';
        StarIsNoBase64(out, i);
      }
    }
  }
}
