/** The firmware revisions a device quota reports: packed 32-bit integers printed as dotted text. */
module Firmware {
  import opened OrderedDict
  import opened Text

  /** A quota value; only a plain integer can be a revision. */
  datatype QuotaValue = Int(value: int) | Flag(on: bool) | OtherValue

  datatype Revision = Revision(raw: int, decoded: string)

  predicate Packed(value: int) {
    0 < value <= 0xFFFF_FFFF
  }

  /** The four bytes, most significant first, as dotted decimals; nothing for what is no packed revision. */
  function DecodeVersion(v: QuotaValue): string {
    if !v.Int? || !Packed(v.value) then ""
    else
      var upper3 := v.value / 0x100;
      var upper2 := upper3 / 0x100;
      Dotted(upper2 / 0x100, upper2 % 0x100, upper3 % 0x100, v.value % 0x100)
  }

  function Dotted(major: nat, minor: nat, patch: nat, build: nat): string {
    "v" + Joined(major, minor, patch, build)
  }

  function Joined(major: nat, minor: nat, patch: nat, build: nat): string {
    Decimal(major) + "." + Decimal(minor) + "." + Decimal(patch) + "." + Decimal(build)
  }

  // ------------------------------------------------------------------ a parser of the text

  /** The parts between the separators. */
  function Split(s: string, sep: char): (parts: seq<string>)
    ensures |parts| > 0
  {
    if s == "" then [""]
    else
      var rest := Split(s[1..], sep);
      if s[0] == sep then [""] + rest else [[s[0]] + rest[0]] + rest[1..]
  }

  lemma {:induction false} SplitFirst(a: string, b: string, sep: char)
    requires sep !in a
    ensures Split(a + [sep] + b, sep) == [a] + Split(b, sep)
  {
    var s := a + [sep] + b;
    if a == "" {
      assert s[1..] == b;
    } else {
      assert s[1..] == a[1..] + [sep] + b;
      SplitFirst(a[1..], b, sep);
      assert [a[0]] + a[1..] == a;
    }
  }

  lemma {:induction false} SplitWhole(a: string, sep: char)
    requires sep !in a
    ensures Split(a, sep) == [a]
  {
    if a != "" {
      SplitWhole(a[1..], sep);
      assert [a[0]] + a[1..] == a;
    }
  }

  predicate Component(s: string) {
    s != "" && AllDigits(s) && DecimalValue(s) < 0x100
  }

  function Packing(a: nat, b: nat, c: nat, d: nat): nat {
    0x100_0000 * a + 0x1_0000 * b + 0x100 * c + d
  }

  function FromParts(p: seq<string>): Option<nat> {
    if |p| != 4 || exists i | 0 <= i < 4 :: !Component(p[i]) then None
    else Some(Packing(DecimalValue(p[0]), DecimalValue(p[1]), DecimalValue(p[2]), DecimalValue(p[3])))
  }

  /** Reads `v1.2.3.4` back into the packed integer. */
  function ParseVersion(s: string): Option<nat> {
    if s == "" || s[0] != 'v' then None else FromParts(Split(s[1..], '.'))
  }

  lemma SplitFour(x: string, y: string, z: string, w: string)
    requires '.' !in x && '.' !in y && '.' !in z && '.' !in w
    ensures Split(x + "." + y + "." + z + "." + w, '.') == [x, y, z, w]
  {
    hide Split;
    assert x + "." + y + "." + z + "." + w == x + ['.'] + (y + ['.'] + (z + ['.'] + w));
    SplitFirst(x, y + ['.'] + (z + ['.'] + w), '.');
    SplitFirst(y, z + ['.'] + w, '.');
    SplitFirst(z, w, '.');
    SplitWhole(w, '.');
  }

  lemma ComponentOf(n: nat)
    requires n < 0x100
    ensures Component(Decimal(n)) && DecimalValue(Decimal(n)) == n && '.' !in Decimal(n)
  {
    DecimalRoundTrip(n);
  }

  lemma DottedRoundTrip(a: nat, b: nat, c: nat, d: nat)
    requires a < 0x100 && b < 0x100 && c < 0x100 && d < 0x100
    ensures ParseVersion(Dotted(a, b, c, d)) == Some(Packing(a, b, c, d))
  {
    ComponentOf(a);
    ComponentOf(b);
    ComponentOf(c);
    ComponentOf(d);
    hide Decimal, DecimalValue, Component, Split, Packing;
    var parts := [Decimal(a), Decimal(b), Decimal(c), Decimal(d)];
    assert FromParts(parts) == Some(Packing(a, b, c, d));
    SplitFour(parts[0], parts[1], parts[2], parts[3]);
    DottedTail(a, b, c, d);
    hide Dotted, FromParts;
  }

  lemma DottedTail(a: nat, b: nat, c: nat, d: nat)
    ensures var s := Dotted(a, b, c, d);
      s != "" && s[0] == 'v' && s[1..] == Joined(a, b, c, d)
  {
    hide Joined;
  }

  lemma BytesOf(v: nat)
    requires v <= 0xFFFF_FFFF
    ensures v / 0x100 / 0x100 / 0x100 < 0x100
    ensures Packing(v / 0x100 / 0x100 / 0x100, v / 0x100 / 0x100 % 0x100, v / 0x100 % 0x100, v % 0x100) == v
  {
    var q := v / 0x100;
    var r := q / 0x100;
    assert v == 0x100 * q + v % 0x100 && q == 0x100 * r + q % 0x100 && r == 0x100 * (r / 0x100) + r % 0x100;
  }

  /** The text of a packed revision parses back to it, and no other value has a text. */
  lemma VersionRoundTrip(v: QuotaValue)
    ensures DecodeVersion(v) != "" <==> v.Int? && Packed(v.value)
    ensures DecodeVersion(v) != "" ==> ParseVersion(DecodeVersion(v)) == Some(v.value)
  {
    hide Dotted, ParseVersion, Packing;
    if v.Int? && Packed(v.value) {
      var upper3 := v.value / 0x100;
      var upper2 := upper3 / 0x100;
      var a, b, c, d := upper2 / 0x100, upper2 % 0x100, upper3 % 0x100, v.value % 0x100;
      BytesOf(v.value);
      DottedRoundTrip(a, b, c, d);
      DottedTail(a, b, c, d);
    }
  }

  // ------------------------------------------------------------------- the quota keys

  function Lower(c: char): char {
    if 'A' <= c <= 'Z' then (c as int + 32) as char else c
  }

  function LowerAll(s: string): (r: string)
    ensures |r| == |s| && forall i | 0 <= i < |s| :: r[i] == Lower(s[i])
  {
    seq(|s|, i requires 0 <= i < |s| => Lower(s[i]))
  }

  /** What follows the last separator. */
  function Leaf(key: string): string {
    var parts := Split(key, '.');
    parts[|parts| - 1]
  }

  predicate IsVersionKey(key: string) {
    LowerAll(Leaf(key)) in {"sysver", "swver", "softver", "loaderver", "hwversion", "wifiver"}
  }

  /** The leaf has no separator and stands at the end of the key, alone or behind one. */
  lemma {:induction false} LeafEndsTheKey(key: string)
    ensures '.' !in Leaf(key)
    ensures Leaf(key) == key || exists front: string :: key == front + "." + Leaf(key)
  {
    if key != "" {
      LeafEndsTheKey(key[1..]);
      var rest := Split(key[1..], '.');
      if key[0] == '.' {
        assert Leaf(key) == Leaf(key[1..]);
        if Leaf(key[1..]) == key[1..] {
          assert key == "" + "." + Leaf(key);
        } else {
          var front: string :| key[1..] == front + "." + Leaf(key[1..]);
          assert key == ([key[0]] + front) + "." + Leaf(key);
        }
      } else if |rest| == 1 {
        SplitIsWhole(key[1..], '.');
        assert Leaf(key) == key;
      } else {
        assert Leaf(key) == Leaf(key[1..]);
        if Leaf(key[1..]) == key[1..] {
          SplitCount(key[1..], '.');
        } else {
          var front: string :| key[1..] == front + "." + Leaf(key[1..]);
          assert key == ([key[0]] + front) + "." + Leaf(key);
        }
      }
    }
  }

  lemma {:induction false} SplitIsWhole(s: string, sep: char)
    requires |Split(s, sep)| == 1
    ensures Split(s, sep) == [s] && sep !in s
  {
    if s != "" {
      SplitIsWhole(s[1..], sep);
      assert s == [s[0]] + s[1..];
    }
  }

  lemma {:induction false} SplitCount(s: string, sep: char)
    ensures |Split(s, sep)| > 1 <==> sep in s
  {
    if s != "" {
      SplitCount(s[1..], sep);
    }
  }

  /** The text is the name, upper-case letters of the text read as lower-case ones. */
  predicate Spells(s: string, name: string) {
    && |s| == |name|
    && forall i | 0 <= i < |s| :: s[i] == name[i] || ('A' <= s[i] <= 'Z' && name[i] as int == s[i] as int + 32)
  }

  lemma LowerSpells(s: string, name: string)
    requires forall i | 0 <= i < |name| :: !('A' <= name[i] <= 'Z')
    ensures LowerAll(s) == name <==> Spells(s, name)
  {
  }

  /** A revision is reported under one of six names, however it is written. */
  lemma VersionKeyIff(key: string)
    ensures IsVersionKey(key) <==>
      || Spells(Leaf(key), "sysver") || Spells(Leaf(key), "swver") || Spells(Leaf(key), "softver")
      || Spells(Leaf(key), "loaderver") || Spells(Leaf(key), "hwversion") || Spells(Leaf(key), "wifiver")
  {
    hide Spells, Leaf;
    LowerSpells(Leaf(key), "sysver");
    LowerSpells(Leaf(key), "swver");
    LowerSpells(Leaf(key), "softver");
    LowerSpells(Leaf(key), "loaderver");
    LowerSpells(Leaf(key), "hwversion");
    LowerSpells(Leaf(key), "wifiver");
  }

  predicate Reports(raw: Dict<string, QuotaValue>, key: string) {
    Has(raw, key) && IsVersionKey(key) && At(raw, key).Int? && Packed(At(raw, key).value)
  }

  /** Collect every revision of a quota: exactly the version-named keys with a packed integer, with both forms. */
  method ExtractFirmwareVersions(raw: Dict<string, QuotaValue>) returns (versions: Dict<string, Revision>)
    requires Distinct(raw)
    ensures Distinct(versions)
    ensures forall key :: Has(versions, key) <==> Reports(raw, key)
    ensures forall key :: Reports(raw, key) ==>
      var v := At(raw, key).value;
      At(versions, key).raw == v && ParseVersion(At(versions, key).decoded) == Some(v)
  {
    hide DecodeVersion, ParseVersion, IsVersionKey;
    versions := [];
    for i := 0 to |raw|
      invariant Distinct(versions)
      invariant forall key :: Has(versions, key) <==> Reports(raw, key) && Find(raw, key) < i
      invariant forall key :: Has(versions, key) ==>
        At(versions, key) == Revision(At(raw, key).value, DecodeVersion(At(raw, key)))
    {
      var key, value := raw[i].0, raw[i].1;
      AtIs(raw, i);
      VersionRoundTrip(value);
      if IsVersionKey(key) {
        var decoded := DecodeVersion(value);
        if decoded != "" {
          PutWorks(versions, key, Revision(value.value, decoded));
          versions := Put(versions, key, Revision(value.value, decoded));
        }
      }
    }
    forall key | Reports(raw, key)
      ensures ParseVersion(At(versions, key).decoded) == Some(At(raw, key).value)
    {
      VersionRoundTrip(At(raw, key));
    }
  }
}
