/**
 The redaction of a whole diagnostics tree: values and dictionary keys share one
 alias table, captured frames are left alone, device names are masked twice.
 */
module Redaction {
  import opened Text
  import opened Base64
  import opened Aliases
  import opened TailMask

  /** A dictionary key: text, or anything else, which the pass returns as it is. */
  datatype Key = TextKey(text: string) | OtherKey(id: int)

  datatype Entry = Entry(key: Key, value: Json)

  /** A diagnostics value; numbers, booleans and null are leaves. Entries keep their insertion order. */
  datatype Json = Str(text: string) | Leaf(id: int) | List(items: seq<Json>) | Dict(entries: seq<Entry>)

  predicate PreSanitized(key: Key) {
    key == TextKey("hex") || key == TextKey("frame_hex")
  }

  predicate NameKey(key: Key) {
    key == TextKey("device_name") || key == TextKey("product_name")
  }

  /** The two keys whose values are left alone and the two whose values are masked twice. */
  lemma KeyRules(s: string, id: int)
    ensures PreSanitized(TextKey(s)) <==> s in ["hex", "frame_hex"]
    ensures NameKey(TextKey(s)) <==> s in ["device_name", "product_name"]
    ensures !PreSanitized(OtherKey(id)) && !NameKey(OtherKey(id))
  {
  }

  /** Dictionary assignment: an existing key keeps its place, a new one goes last. */
  function Put(entries: seq<Entry>, e: Entry): seq<Entry> {
    if entries == [] then [e]
    else if entries[0].key == e.key then [e] + entries[1..]
    else [entries[0]] + Put(entries[1..], e)
  }

  predicate HasKey(entries: seq<Entry>, key: Key) {
    exists i | 0 <= i < |entries| :: entries[i].key == key
  }

  function RedactKey(key: Key, aliases: AliasMap): (Key, AliasMap) {
    match key
    case TextKey(s) => var (text, after) := RedactText(s, aliases); (TextKey(text), after)
    case OtherKey(_) => (key, aliases)
  }

  /** The second pass over a value stored under a name key. */
  function MaskName(key: Key, item: Json, tails: seq<string>): Json {
    if NameKey(key) && item.Str? then Str(MaskTails(item.text, tails)) else item
  }

  function Redact(value: Json, aliases: AliasMap, tails: seq<string>): (Json, AliasMap)
    decreases value, 1
  {
    match value
    case Str(s) => var (text, after) := RedactText(s, aliases); (Str(text), after)
    case Leaf(_) => (value, aliases)
    case List(items) => var (done, after) := RedactItems(items, aliases, tails); (List(done), after)
    case Dict(entries) => var (done, after) := RedactEntries(entries, aliases, tails, []); (Dict(done), after)
  }

  function RedactItems(items: seq<Json>, aliases: AliasMap, tails: seq<string>): (r: (seq<Json>, AliasMap))
    ensures |r.0| == |items|
    decreases items, 0
  {
    if items == [] then ([], aliases)
    else
      var (first, after) := Redact(items[0], aliases, tails);
      var (rest, last) := RedactItems(items[1..], after, tails);
      ([first] + rest, last)
  }

  /** One dictionary entry: the key always, the value unless it is a captured frame. */
  function RedactEntry(e: Entry, aliases: AliasMap, tails: seq<string>): (Entry, AliasMap)
    decreases e, 2
  {
    var (key, after) := RedactKey(e.key, aliases);
    if PreSanitized(e.key) then (Entry(key, e.value), after)
    else
      var (item, last) := Redact(e.value, after, tails);
      (Entry(key, MaskName(e.key, item, tails)), last)
  }

  function RedactEntries(entries: seq<Entry>, aliases: AliasMap, tails: seq<string>, done: seq<Entry>)
    : (seq<Entry>, AliasMap)
    decreases entries, 0
  {
    if entries == [] then (done, aliases)
    else
      var (e, after) := RedactEntry(entries[0], aliases, tails);
      RedactEntries(entries[1..], after, tails, Put(done, e))
  }

  /** The pass as it runs: one object holds the table that every nested call shares. */
  class Redactor {
    var aliases: AliasMap

    constructor ()
      ensures aliases == map[]
    {
      aliases := map[];
    }

    method AliasOf(serial: string) returns (marker: string)
      modifies this
      ensures (marker, aliases) == Alias(serial, old(aliases))
    {
      if serial !in aliases {
        aliases := aliases[serial := if |aliases| == 0 then REDACTED
                           else "**REDACTED-" + Decimal(|aliases| + 1) + "**"];
      }
      marker := aliases[serial];
    }

    method SubstituteRuns(value: string) returns (out: string)
      modifies this
      ensures (out, aliases) == RedactRuns(value, old(aliases))
    {
      hide RedactRuns;
      out := "";
      var at := 0;
      assert value[0..] == value;
      assert out + RedactRuns(value, aliases).0 == RedactRuns(value, aliases).0;
      while at < |value|
        invariant 0 <= at <= |value|
        invariant RedactRuns(value, old(aliases))
               == (out + RedactRuns(value[at..], aliases).0, RedactRuns(value[at..], aliases).1)
      {
        var s := value[at..];
        var n := Piece(s);
        ghost var before, table := out, aliases;
        if RunLength(s) >= MIN_SERIAL_LEN {
          ReplacedStep(s, aliases);
          var marker := AliasOf(s[..n]);
          out := out + marker;
        } else {
          KeptStep(s, aliases);
          out := out + s[..n];
        }
        assert s[n..] == value[at + n..];
        assert before + RedactRuns(s, table).0 == out + RedactRuns(s[n..], aliases).0;
        at := at + n;
      }
      NothingLeft(aliases);
      assert value[at..] == "" && out + "" == out;
    }

    method RedactString(value: string) returns (out: string)
      modifies this
      ensures (out, aliases) == RedactText(value, old(aliases))
    {
      var decoded := DecodeSerial(value);
      if decoded.Some? {
        out := AliasOf(decoded.value);
      } else {
        out := SubstituteRuns(value);
      }
    }

    method RedactValue(value: Json, tails: seq<string>) returns (out: Json)
      modifies this
      ensures (out, aliases) == Redact(value, old(aliases), tails)
      decreases value
    {
      match value
      case Str(s) =>
        var text := RedactString(s);
        out := Str(text);
      case Leaf(_) =>
        out := value;
      case List(items) =>
        var done := [];
        assert items[0..] == items;
        assert done + RedactItems(items, aliases, tails).0 == RedactItems(items, aliases, tails).0;
        for n := 0 to |items|
          invariant |done| == n
          invariant RedactItems(items, old(aliases), tails)
                 == (done + RedactItems(items[n..], aliases, tails).0, RedactItems(items[n..], aliases, tails).1)
        {
          ghost var rest := RedactItems(items[n..], aliases, tails).0;
          var item := RedactValue(items[n], tails);
          assert items[n..][1..] == items[n + 1..];
          assert done + rest == done + [item] + RedactItems(items[n + 1..], aliases, tails).0;
          done := done + [item];
        }
        assert done + [] == done;
        out := List(done);
      case Dict(entries) =>
        var done := [];
        for n := 0 to |entries|
          invariant RedactEntries(entries, old(aliases), tails, [])
                 == RedactEntries(entries[n..], aliases, tails, done)
        {
          var e := entries[n];
          assert entries[n..][1..] == entries[n + 1..];
          var key := e.key;
          if e.key.TextKey? {
            var text := RedactString(e.key.text);
            key := TextKey(text);
          }
          if PreSanitized(e.key) {
            done := Put(done, Entry(key, e.value));
          } else {
            var item := RedactValue(e.value, tails);
            if NameKey(e.key) && item.Str? {
              item := Str(MaskTails(item.text, tails));
            }
            done := Put(done, Entry(key, item));
          }
        }
        out := Dict(done);
    }
  }
}
