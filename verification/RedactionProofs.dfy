/** What the redaction pass guarantees for every diagnostics tree. */
module RedactionProofs {
  import opened Text
  import opened Base64
  import opened Aliases
  import opened TailMask
  import opened Redaction

  // --------------------------------------------------- the table over a tree

  lemma KeyKeepsTable(key: Key, aliases: AliasMap)
    requires Valid(aliases)
    ensures Valid(RedactKey(key, aliases).1) && Extends(aliases, RedactKey(key, aliases).1)
  {
    if key.TextKey? {
      TextKeepsTable(key.text, aliases);
    }
  }

  /** Threaded through a whole tree, the table stays injective and only grows. */
  lemma {:induction false} TreeKeepsTable(value: Json, aliases: AliasMap, tails: seq<string>)
    requires Valid(aliases)
    ensures Valid(Redact(value, aliases, tails).1) && Extends(aliases, Redact(value, aliases, tails).1)
    decreases value, 1
  {
    match value
    case Str(s) => TextKeepsTable(s, aliases);
    case Leaf(_) =>
    case List(items) => ItemsKeepTable(items, aliases, tails);
    case Dict(entries) => EntriesKeepTable(entries, aliases, tails, []);
  }

  lemma {:induction false} ItemsKeepTable(items: seq<Json>, aliases: AliasMap, tails: seq<string>)
    requires Valid(aliases)
    ensures Valid(RedactItems(items, aliases, tails).1) && Extends(aliases, RedactItems(items, aliases, tails).1)
    decreases items, 0
  {
    if items != [] {
      TreeKeepsTable(items[0], aliases, tails);
      ItemsKeepTable(items[1..], Redact(items[0], aliases, tails).1, tails);
    }
  }

  lemma {:induction false} EntryKeepsTable(e: Entry, aliases: AliasMap, tails: seq<string>)
    requires Valid(aliases)
    ensures Valid(RedactEntry(e, aliases, tails).1) && Extends(aliases, RedactEntry(e, aliases, tails).1)
    decreases e, 2
  {
    KeyKeepsTable(e.key, aliases);
    if !PreSanitized(e.key) {
      TreeKeepsTable(e.value, RedactKey(e.key, aliases).1, tails);
    }
  }

  lemma {:induction false} EntriesKeepTable(entries: seq<Entry>, aliases: AliasMap, tails: seq<string>,
                                            done: seq<Entry>)
    requires Valid(aliases)
    ensures var after := RedactEntries(entries, aliases, tails, done).1; Valid(after) && Extends(aliases, after)
    decreases entries, 0
  {
    if entries != [] {
      EntryKeepsTable(entries[0], aliases, tails);
      var (e, after) := RedactEntry(entries[0], aliases, tails);
      EntriesKeepTable(entries[1..], after, tails, Put(done, e));
    }
  }

  // --------------------------------------------------- absence and idempotence

  predicate KeysDistinct(entries: seq<Entry>) {
    forall i, j | 0 <= i < j < |entries| :: entries[i].key != entries[j].key
  }

  ghost predicate SettledKey(key: Key) {
    key.TextKey? ==> Settled(key.text)
  }

  /** No serial and no encoded serial in any key or value, captured frames apart. */
  ghost predicate SettledTree(value: Json)
    decreases value, 1
  {
    match value
    case Str(s) => Settled(s)
    case Leaf(_) => true
    case List(items) => forall i | 0 <= i < |items| :: SettledTree(items[i])
    case Dict(entries) => KeysDistinct(entries) && SettledEntries(entries)
  }

  ghost predicate SettledEntries(entries: seq<Entry>)
    decreases entries, 0
  {
    forall i | 0 <= i < |entries| :: SettledEntry(entries[i])
  }

  ghost predicate SettledEntry(e: Entry)
    decreases e, 2
  {
    SettledKey(e.key) && (PreSanitized(e.key) || SettledTree(e.value))
  }

  lemma {:induction false} PutKeepsSettled(done: seq<Entry>, e: Entry)
    requires KeysDistinct(done) && SettledEntries(done) && SettledEntry(e)
    ensures KeysDistinct(Put(done, e)) && SettledEntries(Put(done, e))
    ensures forall f | f in Put(done, e) :: f.key == e.key || HasKey(done, f.key)
  {
    hide SettledEntry;
    if done != [] && done[0].key != e.key {
      PutKeepsSettled(done[1..], e);
      var rest := Put(done[1..], e);
      forall i | 0 <= i < |rest| ensures rest[i].key != done[0].key && HasKey(done + [e], rest[i].key) {
        assert rest[i] in rest;
        if rest[i].key == e.key {
          assert (done + [e])[|done|] == e;
        } else {
          var j :| 0 <= j < |done[1..]| && done[1..][j].key == rest[i].key;
          assert done[1..][j] == done[j + 1] == (done + [e])[j + 1];
        }
      }
    }
  }

  lemma KeySettles(key: Key, aliases: AliasMap)
    requires Valid(aliases) && |RedactKey(key, aliases).1| < MAX_SERIALS
    ensures SettledKey(RedactKey(key, aliases).0)
    ensures PreSanitized(key) ==> RedactKey(key, aliases) == (key, aliases)
  {
    if key.TextKey? {
      RedactedTextIsSettled(key.text, aliases);
      if PreSanitized(key) {
        SettledIsUntouched(key.text, aliases);
      }
    }
  }

  /** After the pass no serial is left in any key or value outside the captured frames. */
  lemma {:induction false} RedactionSettlesTheTree(value: Json, aliases: AliasMap, tails: seq<string>)
    requires Valid(aliases) && |Redact(value, aliases, tails).1| < MAX_SERIALS
    ensures SettledTree(Redact(value, aliases, tails).0)
    decreases value, 1
  {
    match value
    case Str(s) => RedactedTextIsSettled(s, aliases);
    case Leaf(_) =>
    case List(items) => ItemsSettle(items, aliases, tails);
    case Dict(entries) => EntriesSettle(entries, aliases, tails, []);
  }

  lemma {:induction false} ItemsSettle(items: seq<Json>, aliases: AliasMap, tails: seq<string>)
    requires Valid(aliases) && |RedactItems(items, aliases, tails).1| < MAX_SERIALS
    ensures forall i | 0 <= i < |items| :: SettledTree(RedactItems(items, aliases, tails).0[i])
    decreases items, 0
  {
    if items != [] {
      var (first, after) := Redact(items[0], aliases, tails);
      TreeKeepsTable(items[0], aliases, tails);
      ItemsKeepTable(items[1..], after, tails);
      ExtendsGrows(after, RedactItems(items[1..], after, tails).1);
      RedactionSettlesTheTree(items[0], aliases, tails);
      ItemsSettle(items[1..], after, tails);
    }
  }

  lemma {:induction false} EntrySettles(e: Entry, aliases: AliasMap, tails: seq<string>)
    requires Valid(aliases) && |RedactEntry(e, aliases, tails).1| < MAX_SERIALS
    ensures SettledEntry(RedactEntry(e, aliases, tails).0)
    decreases e, 2
  {
    var after := RedactKey(e.key, aliases).1;
    KeyKeepsTable(e.key, aliases);
    EntryKeepsTable(e, aliases, tails);
    if PreSanitized(e.key) {
      KeySettles(e.key, aliases);
    } else {
      TreeKeepsTable(e.value, after, tails);
      ExtendsGrows(after, Redact(e.value, after, tails).1);
      KeySettles(e.key, aliases);
      RedactionSettlesTheTree(e.value, after, tails);
      if Redact(e.value, after, tails).0.Str? {
        MaskedTextIsSettled(Redact(e.value, after, tails).0.text, tails);
      }
    }
  }

  lemma {:induction false} EntriesSettle(entries: seq<Entry>, aliases: AliasMap, tails: seq<string>, done: seq<Entry>)
    requires Valid(aliases) && |RedactEntries(entries, aliases, tails, done).1| < MAX_SERIALS
    requires KeysDistinct(done) && SettledEntries(done)
    ensures var r := RedactEntries(entries, aliases, tails, done).0; KeysDistinct(r) && SettledEntries(r)
    decreases entries, 0
  {
    hide SettledEntries, KeysDistinct, Put, RedactEntry;
    if entries != [] {
      var (e, after) := RedactEntry(entries[0], aliases, tails);
      EntryKeepsTable(entries[0], aliases, tails);
      EntriesKeepTable(entries[1..], after, tails, Put(done, e));
      ExtendsGrows(after, RedactEntries(entries, aliases, tails, done).1);
      EntrySettles(entries[0], aliases, tails);
      PutKeepsSettled(done, e);
      EntriesSettle(entries[1..], after, tails, Put(done, e));
    }
  }

  lemma {:induction false} PutAppends(done: seq<Entry>, e: Entry)
    requires !HasKey(done, e.key)
    ensures Put(done, e) == done + [e]
  {
    if done != [] {
      assert done[0].key != e.key;
      forall i | 0 <= i < |done[1..]| ensures done[1..][i].key != e.key {
        assert done[1..][i] == done[i + 1];
      }
      PutAppends(done[1..], e);
      assert [done[0]] + (done[1..] + [e]) == done + [e];
    }
  }

  /** A settled tree goes through the pass unchanged and adds nothing to the table. */
  lemma {:induction false} SettledTreeIsUntouched(value: Json, aliases: AliasMap)
    requires SettledTree(value)
    ensures Redact(value, aliases, []) == (value, aliases)
    decreases value, 1
  {
    match value
    case Str(s) => SettledIsUntouched(s, aliases);
    case Leaf(_) =>
    case List(items) => SettledItemsAreUntouched(items, aliases);
    case Dict(entries) =>
      assert [] + entries == entries;
      SettledEntriesAreUntouched(entries, aliases, []);
  }

  lemma {:induction false} SettledItemsAreUntouched(items: seq<Json>, aliases: AliasMap)
    requires forall i | 0 <= i < |items| :: SettledTree(items[i])
    ensures RedactItems(items, aliases, []) == (items, aliases)
    decreases items, 0
  {
    if items != [] {
      SettledTreeIsUntouched(items[0], aliases);
      SettledItemsAreUntouched(items[1..], aliases);
      assert [items[0]] + items[1..] == items;
    }
  }

  lemma {:induction false} SettledEntryIsUntouched(e: Entry, aliases: AliasMap)
    requires SettledEntry(e)
    ensures RedactEntry(e, aliases, []) == (e, aliases)
    decreases e, 2
  {
    if e.key.TextKey? {
      SettledIsUntouched(e.key.text, aliases);
    }
    if !PreSanitized(e.key) {
      SettledTreeIsUntouched(e.value, aliases);
    }
  }

  lemma {:induction false} SettledEntriesAreUntouched(entries: seq<Entry>, aliases: AliasMap, done: seq<Entry>)
    requires KeysDistinct(done + entries) && SettledEntries(entries)
    ensures RedactEntries(entries, aliases, [], done) == (done + entries, aliases)
    decreases entries, 0
  {
    if entries == [] {
      assert done + entries == done;
    } else {
      hide RedactEntry, Put;
      var e := entries[0];
      SettledEntryIsUntouched(e, aliases);
      forall i | 0 <= i < |done| ensures done[i].key != e.key {
        assert (done + entries)[i] == done[i] && (done + entries)[|done|] == e;
      }
      PutAppends(done, e);
      assert done + [e] + entries[1..] == done + entries;
      SettledEntriesAreUntouched(entries[1..], aliases, done + [e]);
    }
  }

  /** Without endings a second pass changes nothing, whatever table it starts from. */
  lemma RedactionIsIdempotent(value: Json, aliases: AliasMap, tails: seq<string>, second: AliasMap)
    requires Valid(aliases) && |Redact(value, aliases, tails).1| < MAX_SERIALS
    ensures var once := Redact(value, aliases, tails).0; Redact(once, second, []) == (once, second)
  {
    RedactionSettlesTheTree(value, aliases, tails);
    SettledTreeIsUntouched(Redact(value, aliases, tails).0, second);
  }

  // ------------------------------------------------------------ captured frames

  /** The pass neither renames a frame key nor turns another key into one. */
  lemma FrameKeyIsItself(key: Key, aliases: AliasMap)
    requires Valid(aliases)
    ensures var after := RedactKey(key, aliases).0;
      (PreSanitized(key) || PreSanitized(after)) ==> after == key
  {
    if key.TextKey? {
      FrameTextIsItself(key.text, aliases);
    }
  }

  lemma FrameTextIsItself(s: string, aliases: AliasMap)
    requires Valid(aliases)
    ensures '*' !in RedactText(s, aliases).0 ==> RedactText(s, aliases).0 == s
    ensures |s| < MIN_SERIAL_LEN ==> RedactText(s, aliases).0 == s
  {
    if DecodeSerial(s).Some? {
      var serial := DecodeSerial(s).value;
      AliasKeepsTable(serial, aliases);
      var (marker, after) := Alias(serial, aliases);
      var n: nat :| n <= |after| && IsMarker(marker, n);
      assert marker[0] == '*';
    } else {
      RunsWriteAStar(s, aliases);
      if |s| < MIN_SERIAL_LEN {
        NoSerialIsUntouched(s, aliases);
      }
    }
  }

  lemma {:induction false} PutKeepsOthers(done: seq<Entry>, e: Entry, kept: Entry)
    requires kept == e || (kept in done && kept.key != e.key)
    ensures kept in Put(done, e)
  {
    if done != [] && done[0].key != e.key {
      if kept == done[0] {
        assert Put(done, e)[0] == kept;
      } else {
        PutKeepsOthers(done[1..], e, kept);
      }
    }
  }

  /** A captured frame stays in the dictionary under its own key, unchanged. */
  lemma {:induction false} FramesAreKept(entries: seq<Entry>, aliases: AliasMap, tails: seq<string>, done: seq<Entry>,
                                         frame: Entry)
    requires Valid(aliases) && KeysDistinct(entries) && PreSanitized(frame.key)
    requires frame in entries || (frame in done && !HasKey(entries, frame.key))
    ensures frame in RedactEntries(entries, aliases, tails, done).0
    decreases entries, 0
  {
    if entries != [] {
      hide Put;
      var (e, after) := RedactEntry(entries[0], aliases, tails);
      FrameKeyIsItself(entries[0].key, aliases);
      EntryKeepsTable(entries[0], aliases, tails);
      var rest := entries[1..];
      assert forall i | 0 <= i < |rest| :: rest[i] == entries[i + 1];
      if entries[0] == frame {
        PutKeepsOthers(done, e, frame);
      } else if frame !in entries {
        assert entries[0].key != frame.key;
        PutKeepsOthers(done, e, frame);
      }
      FramesAreKept(rest, after, tails, Put(done, e), frame);
    }
  }

  // ------------------------------------------------------------------ inversion

  predicate PlainKey(key: Key) {
    key.TextKey? ==> StarFree(key.text)
  }

  function CanonicalKey(key: Key): Key {
    match key
    case TextKey(s) => TextKey(Canonical(s))
    case OtherKey(_) => key
  }

  ghost function UnredactKey(key: Key, aliases: AliasMap): Key {
    match key
    case TextKey(s) => TextKey(Unredact(s, aliases))
    case OtherKey(_) => key
  }

  /** No stars anywhere, and no dictionary that keys one serial twice. */
  ghost predicate PlainTree(value: Json)
    decreases value, 1
  {
    match value
    case Str(s) => StarFree(s)
    case Leaf(_) => true
    case List(items) => forall i | 0 <= i < |items| :: PlainTree(items[i])
    case Dict(entries) => PlainEntries(entries)
  }

  ghost predicate PlainEntries(entries: seq<Entry>)
    decreases entries, 0
  {
    && (forall i | 0 <= i < |entries| :: PlainEntry(entries[i]))
    && (forall i, j | 0 <= i < j < |entries| :: CanonicalKey(entries[i].key) != CanonicalKey(entries[j].key))
  }

  ghost predicate PlainEntry(e: Entry)
    decreases e, 2
  {
    PlainKey(e.key) && (PreSanitized(e.key) || PlainTree(e.value))
  }

  /** The finished table reads `after` back into `before`, name tails apart. */
  ghost predicate Restores(before: Json, after: Json, final: AliasMap, tails: seq<string>)
    decreases before, 1
  {
    match before
    case Str(s) => after.Str? && Unredact(after.text, final) == Canonical(s)
    case Leaf(_) => after == before
    case List(items) =>
      && after.List? && |after.items| == |items|
      && forall i | 0 <= i < |items| :: Restores(items[i], after.items[i], final, tails)
    case Dict(entries) => after.Dict? && RestoresEntries(entries, after.entries, final, tails)
  }

  ghost predicate RestoresEntries(before: seq<Entry>, after: seq<Entry>, final: AliasMap, tails: seq<string>)
    decreases before, 0
  {
    && |before| == |after|
    && forall i | 0 <= i < |before| :: RestoresEntry(before[i], after[i], final, tails)
  }

  ghost predicate RestoresEntry(before: Entry, after: Entry, final: AliasMap, tails: seq<string>)
    decreases before, 2
  {
    && UnredactKey(after.key, final) == CanonicalKey(before.key)
    && if PreSanitized(before.key) then after.value == before.value
       else if NameKey(before.key) && before.value.Str? then RestoresName(before.value.text, after.value, final, tails)
       else Restores(before.value, after.value, final, tails)
  }

  /** A name is the tail mask of a text that reads back into it. */
  ghost predicate RestoresName(name: string, after: Json, final: AliasMap, tails: seq<string>) {
    exists passed :: after == Str(MaskTails(passed, tails)) && Unredact(passed, final) == Canonical(name)
  }

  lemma ExtendsAcross(a: AliasMap, b: AliasMap, c: AliasMap)
    requires Extends(a, b) && Extends(b, c)
    ensures Extends(a, c)
  {
  }

  lemma KeyRestores(key: Key, aliases: AliasMap, final: AliasMap)
    requires PlainKey(key) && Valid(aliases) && Valid(final) && Extends(RedactKey(key, aliases).1, final)
    ensures UnredactKey(RedactKey(key, aliases).0, final) == CanonicalKey(key)
  {
    if key.TextKey? {
      UnredactText(key.text, aliases, final);
    }
  }

  /** Redaction is invertible: with the finished table the whole tree reads back. */
  lemma {:induction false} RedactionRestores(value: Json, aliases: AliasMap, tails: seq<string>, final: AliasMap)
    requires PlainTree(value) && Valid(aliases) && Valid(final)
    requires Extends(Redact(value, aliases, tails).1, final)
    ensures Restores(value, Redact(value, aliases, tails).0, final, tails)
    decreases value, 1
  {
    match value
    case Str(s) => UnredactText(s, aliases, final);
    case Leaf(_) =>
    case List(items) => ItemsRestore(items, aliases, tails, final);
    case Dict(entries) =>
      var none: seq<Entry> := [];
      EntriesRestore(none, none, entries, aliases, tails, final);
      assert none + entries == entries;
  }

  lemma {:induction false} ItemsRestore(items: seq<Json>, aliases: AliasMap, tails: seq<string>, final: AliasMap)
    requires forall i | 0 <= i < |items| :: PlainTree(items[i])
    requires Valid(aliases) && Valid(final) && Extends(RedactItems(items, aliases, tails).1, final)
    ensures forall i | 0 <= i < |items| :: Restores(items[i], RedactItems(items, aliases, tails).0[i], final, tails)
    decreases items, 0
  {
    if items != [] {
      var (first, after) := Redact(items[0], aliases, tails);
      TreeKeepsTable(items[0], aliases, tails);
      ItemsKeepTable(items[1..], after, tails);
      ExtendsAcross(after, RedactItems(items[1..], after, tails).1, final);
      RedactionRestores(items[0], aliases, tails, final);
      ItemsRestore(items[1..], after, tails, final);
    }
  }

  lemma {:induction false} EntryRestores(e: Entry, aliases: AliasMap, tails: seq<string>, final: AliasMap)
    requires PlainEntry(e) && Valid(aliases) && Valid(final) && Extends(RedactEntry(e, aliases, tails).1, final)
    ensures RestoresEntry(e, RedactEntry(e, aliases, tails).0, final, tails)
    decreases e, 2
  {
    var after := RedactKey(e.key, aliases).1;
    KeyKeepsTable(e.key, aliases);
    if PreSanitized(e.key) {
      KeyRestores(e.key, aliases, final);
    } else {
      TreeKeepsTable(e.value, after, tails);
      ExtendsAcross(after, Redact(e.value, after, tails).1, final);
      KeyRestores(e.key, aliases, final);
      RedactionRestores(e.value, after, tails, final);
      if NameKey(e.key) && e.value.Str? {
        var passed := Redact(e.value, after, tails).0.text;
        assert RedactEntry(e, aliases, tails).0.value == Str(MaskTails(passed, tails));
      }
    }
  }

  /** A new key never meets one already written, so every entry keeps its own place. */
  lemma KeyIsNew(seen: seq<Entry>, done: seq<Entry>, e: Entry, f: Entry, final: AliasMap, tails: seq<string>)
    requires RestoresEntries(seen, done, final, tails) && RestoresEntry(e, f, final, tails)
    requires PlainEntries(seen + [e])
    ensures !HasKey(done, f.key) && RestoresEntries(seen + [e], done + [f], final, tails)
  {
    assert (seen + [e])[|seen|] == e;
    forall i | 0 <= i < |done| ensures done[i].key != f.key {
      assert (seen + [e])[i] == seen[i];
      assert RestoresEntry(seen[i], done[i], final, tails);
    }
  }

  lemma {:induction false} EntriesRestore(seen: seq<Entry>, done: seq<Entry>, entries: seq<Entry>, aliases: AliasMap,
                                          tails: seq<string>, final: AliasMap)
    requires PlainEntries(seen + entries) && RestoresEntries(seen, done, final, tails)
    requires Valid(aliases) && Valid(final) && Extends(RedactEntries(entries, aliases, tails, done).1, final)
    ensures RestoresEntries(seen + entries, RedactEntries(entries, aliases, tails, done).0, final, tails)
    decreases entries, 0
  {
    if entries == [] {
      assert seen + entries == seen;
    } else {
      hide RestoresEntries, Put, RedactEntry, RestoresEntry;
      var e := entries[0];
      var (f, after) := RedactEntry(e, aliases, tails);
      assert seen + [e] + entries[1..] == seen + entries;
      PlainFront(seen + [e], entries[1..]);
      EntryKeepsTable(e, aliases, tails);
      EntriesKeepTable(entries[1..], after, tails, Put(done, f));
      ExtendsAcross(after, RedactEntries(entries, aliases, tails, done).1, final);
      EntryRestores(e, aliases, tails, final);
      KeyIsNew(seen, done, e, f, final, tails);
      PutAppends(done, f);
      EntriesRestore(seen + [e], done + [f], entries[1..], after, tails, final);
    }
  }

  lemma PlainFront(a: seq<Entry>, b: seq<Entry>)
    requires PlainEntries(a + b)
    ensures PlainEntries(a) && (a != [] ==> PlainEntry(a[|a| - 1]))
  {
    forall i | 0 <= i < |a| ensures PlainEntry(a[i]) {
      assert (a + b)[i] == a[i];
    }
    forall i, j | 0 <= i < j < |a| ensures CanonicalKey(a[i].key) != CanonicalKey(a[j].key) {
      assert (a + b)[i] == a[i] && (a + b)[j] == a[j];
    }
  }

  // ------------------------------------------------------------ keys that collapse

  lemma FinalKey(key: Key, aliases: AliasMap, final: AliasMap)
    requires Valid(aliases) && Extends(RedactKey(key, aliases).1, final)
    ensures RedactKey(key, final) == (RedactKey(key, aliases).0, final)
  {
    if key.TextKey? {
      RedactionOfCanonical(key.text, key.text, aliases, final);
    }
  }

  lemma SameKeyIffSameCanonical(k: Key, l: Key, final: AliasMap)
    requires PlainKey(k) && PlainKey(l) && Valid(final)
    requires RedactKey(k, final).1 == final && RedactKey(l, final).1 == final
    ensures RedactKey(k, final).0 == RedactKey(l, final).0 <==> CanonicalKey(k) == CanonicalKey(l)
  {
    if k.TextKey? && l.TextKey? {
      SameRedactionIffSameCanonical(k.text, l.text, final, final);
    }
  }

  lemma {:induction false} PutKeys(done: seq<Entry>, e: Entry)
    requires KeysDistinct(done)
    ensures KeysDistinct(Put(done, e))
    ensures forall k :: HasKey(Put(done, e), k) <==> HasKey(done, k) || k == e.key
  {
    var r := Put(done, e);
    if done == [] || done[0].key == e.key {
      assert r[0] == e;
      assert forall i | 1 <= i < |done| :: r[i] == done[i];
    } else {
      var rest := Put(done[1..], e);
      PutKeys(done[1..], e);
      assert forall i | 1 <= i < |done| :: done[i] == done[1..][i - 1];
      assert forall i | 1 <= i < |r| :: r[i] == rest[i - 1];
      forall k ensures HasKey(r, k) <==> HasKey(done, k) || k == e.key {
        HasKeyTail(r, k);
        HasKeyTail(done, k);
      }
      forall i | 0 <= i < |done[1..]| ensures done[1..][i].key != done[0].key {
        assert done[1..][i] == done[i + 1];
      }
      assert !HasKey(rest, done[0].key);
      forall i | 0 <= i < |rest| ensures rest[i].key != done[0].key {
        assert HasKey(rest, rest[i].key);
      }
    }
  }

  lemma HasKeyTail(entries: seq<Entry>, key: Key)
    requires entries != []
    ensures HasKey(entries, key) <==> entries[0].key == key || HasKey(entries[1..], key)
  {
    if HasKey(entries[1..], key) {
      var i :| 0 <= i < |entries[1..]| && entries[1..][i].key == key;
      assert entries[i + 1].key == key;
    }
    if HasKey(entries, key) && entries[0].key != key {
      var i :| 0 <= i < |entries| && entries[i].key == key;
      assert entries[1..][i - 1].key == key;
    }
  }

  ghost predicate RedactsTo(entries: seq<Entry>, key: Key, final: AliasMap) {
    exists i | 0 <= i < |entries| :: RedactKey(entries[i].key, final) == (key, final)
  }

  lemma RedactsToTail(entries: seq<Entry>, key: Key, final: AliasMap)
    requires entries != []
    ensures RedactsTo(entries, key, final)
      <==> RedactKey(entries[0].key, final) == (key, final) || RedactsTo(entries[1..], key, final)
  {
    if RedactsTo(entries[1..], key, final) {
      var i :| 0 <= i < |entries[1..]| && RedactKey(entries[1..][i].key, final) == (key, final);
      assert RedactKey(entries[i + 1].key, final) == (key, final);
    }
    if RedactsTo(entries, key, final) && RedactKey(entries[0].key, final) != (key, final) {
      var i :| 0 <= i < |entries| && RedactKey(entries[i].key, final) == (key, final);
      assert RedactKey(entries[1..][i - 1].key, final) == (key, final);
    }
  }

  lemma EntryKeyIsFinal(e: Entry, aliases: AliasMap, tails: seq<string>, final: AliasMap)
    requires Valid(aliases) && Extends(RedactEntry(e, aliases, tails).1, final)
    ensures RedactKey(e.key, final) == (RedactEntry(e, aliases, tails).0.key, final)
  {
    var after := RedactKey(e.key, aliases).1;
    KeyKeepsTable(e.key, aliases);
    if !PreSanitized(e.key) {
      TreeKeepsTable(e.value, after, tails);
      ExtendsAcross(after, RedactEntry(e, aliases, tails).1, final);
    }
    FinalKey(e.key, aliases, final);
  }

  lemma {:induction false} EntriesKeys(entries: seq<Entry>, aliases: AliasMap, tails: seq<string>, done: seq<Entry>,
                                       final: AliasMap)
    requires Valid(aliases) && KeysDistinct(done) && Extends(RedactEntries(entries, aliases, tails, done).1, final)
    ensures var r := RedactEntries(entries, aliases, tails, done).0;
      && KeysDistinct(r)
      && (forall k :: HasKey(r, k) <==> HasKey(done, k) || RedactsTo(entries, k, final))
    ensures forall e | e in entries :: RedactKey(e.key, final).1 == final
    decreases entries, 0
  {
    if entries != [] {
      hide Put, KeysDistinct, HasKey, RedactsTo, RedactEntry;
      var (e, after) := RedactEntry(entries[0], aliases, tails);
      EntryKeepsTable(entries[0], aliases, tails);
      EntriesKeepTable(entries[1..], after, tails, Put(done, e));
      PutKeys(done, e);
      EntriesKeys(entries[1..], after, tails, Put(done, e), final);
      ExtendsAcross(after, RedactEntries(entries, aliases, tails, done).1, final);
      EntryKeyIsFinal(entries[0], aliases, tails, final);
      forall k ensures RedactsTo(entries, k, final) <==> k == e.key || RedactsTo(entries[1..], k, final) {
        RedactsToTail(entries, k, final);
      }
      assert entries == [entries[0]] + entries[1..];
    }
  }

  /**
   A dictionary without stars in its keys comes out with one entry per redacted key,
   and two of its keys share a redacted key exactly when one serial, plain or
   encoded, stands behind both.
   */
  lemma KeysCollapseExactly(entries: seq<Entry>, aliases: AliasMap, tails: seq<string>)
    requires Valid(aliases) && forall e | e in entries :: PlainKey(e.key)
    ensures var (r, final) := RedactEntries(entries, aliases, tails, []);
      && KeysDistinct(r)
      && (forall k :: HasKey(r, k) <==> RedactsTo(entries, k, final))
      && (forall e, f | e in entries && f in entries ::
            RedactKey(e.key, final).0 == RedactKey(f.key, final).0 <==> CanonicalKey(e.key) == CanonicalKey(f.key))
  {
    var (r, final) := RedactEntries(entries, aliases, tails, []);
    EntriesKeepTable(entries, aliases, tails, []);
    EntriesKeys(entries, aliases, tails, [], final);
    forall e, f | e in entries && f in entries
      ensures RedactKey(e.key, final).0 == RedactKey(f.key, final).0 <==> CanonicalKey(e.key) == CanonicalKey(f.key)
    {
      SameKeyIffSameCanonical(e.key, f.key, final);
    }
  }

  // ------------------------------------------------------------- names in a tree

  /** No stars in any device or product name, at any depth outside captured frames. */
  ghost predicate NamesStarFree(value: Json)
    decreases value, 1
  {
    match value
    case List(items) => forall i | 0 <= i < |items| :: NamesStarFree(items[i])
    case Dict(entries) => forall i | 0 <= i < |entries| :: NameStarFree(entries[i])
    case _ => true
  }

  ghost predicate NameStarFree(e: Entry)
    decreases e, 2
  {
    || PreSanitized(e.key)
    || ((NameKey(e.key) && e.value.Str? ==> StarFree(e.value.text)) && NamesStarFree(e.value))
  }

  /** No known ending outside a placeholder in any device or product name, at any depth outside captured frames. */
  ghost predicate NamesMasked(value: Json, tails: seq<string>)
    decreases value, 1
  {
    match value
    case List(items) => forall i | 0 <= i < |items| :: NamesMasked(items[i], tails)
    case Dict(entries) => AllNamesMasked(entries, tails)
    case _ => true
  }

  ghost predicate AllNamesMasked(entries: seq<Entry>, tails: seq<string>)
    decreases entries, 0
  {
    forall i | 0 <= i < |entries| :: NameMasked(entries[i], tails)
  }

  ghost predicate NameMasked(e: Entry, tails: seq<string>)
    decreases e, 2
  {
    || PreSanitized(e.key)
    || ((NameKey(e.key) && e.value.Str? ==> AllClear(Gaps(e.value.text), tails)) && NamesMasked(e.value, tails))
  }

  /** The pass leaves a text alone or writes a star into it. */
  lemma TextWritesAStar(s: string, aliases: AliasMap)
    requires Valid(aliases)
    ensures RedactText(s, aliases).0 == s || '*' in RedactText(s, aliases).0
  {
    match DecodeSerial(s)
    case Some(serial) =>
      AliasKeepsTable(serial, aliases);
      var (marker, after) := Alias(serial, aliases);
      var n: nat :| n <= |after| && IsMarker(marker, n);
      assert marker[0] == '*';
    case None =>
      RunsWriteAStar(s, aliases);
  }

  /** A key that comes out as a name key went in as it is. */
  lemma StarFreeKeyIsKept(key: Key, aliases: AliasMap)
    requires Valid(aliases) && NameKey(RedactKey(key, aliases).0)
    ensures RedactKey(key, aliases).0 == key
  {
    if key.TextKey? {
      NameKeysHaveNoStar(RedactText(key.text, aliases).0);
      TextWritesAStar(key.text, aliases);
    }
  }

  lemma NameKeysHaveNoStar(s: string)
    requires NameKey(TextKey(s))
    ensures s != "" && '*' !in s
  {
  }

  lemma {:induction false} PutHolds(done: seq<Entry>, e: Entry, tails: seq<string>)
    requires NameMasked(e, tails) && AllNamesMasked(done, tails)
    ensures AllNamesMasked(Put(done, e), tails)
  {
    hide NameMasked;
    if done != [] && done[0].key != e.key {
      PutHolds(done[1..], e, tails);
    }
  }

  /** After the pass no device or product name anywhere in the tree shows a known serial ending. */
  lemma {:induction false} TreeNamesAreMasked(value: Json, aliases: AliasMap, tails: seq<string>)
    requires NamesStarFree(value) && Valid(aliases) && ProperTails(tails)
    ensures NamesMasked(Redact(value, aliases, tails).0, tails)
    decreases value, 1
  {
    match value
    case Str(_) =>
    case Leaf(_) =>
    case List(items) => ItemNamesAreMasked(items, aliases, tails);
    case Dict(entries) => EntryNamesAreMasked(entries, aliases, tails, []);
  }

  lemma {:induction false} ItemNamesAreMasked(items: seq<Json>, aliases: AliasMap, tails: seq<string>)
    requires Valid(aliases) && ProperTails(tails) && forall i | 0 <= i < |items| :: NamesStarFree(items[i])
    ensures forall i | 0 <= i < |items| :: NamesMasked(RedactItems(items, aliases, tails).0[i], tails)
    decreases items, 0
  {
    hide NamesMasked, NamesStarFree;
    if items != [] {
      var after := Redact(items[0], aliases, tails).1;
      TreeKeepsTable(items[0], aliases, tails);
      TreeNamesAreMasked(items[0], aliases, tails);
      ItemNamesAreMasked(items[1..], after, tails);
    }
  }

  lemma {:induction false} OneNameIsMasked(e: Entry, aliases: AliasMap, tails: seq<string>)
    requires NameStarFree(e) && Valid(aliases) && ProperTails(tails)
    ensures NameMasked(RedactEntry(e, aliases, tails).0, tails)
    decreases e, 2
  {
    hide AllClear, Gaps, MaskTails, ProperTails, Redact;
    var (key, after) := RedactKey(e.key, aliases);
    KeyKeepsTable(e.key, aliases);
    if PreSanitized(e.key) {
      FrameKeyIsItself(e.key, aliases);
    } else {
      TreeNamesAreMasked(e.value, after, tails);
      if NameKey(key) {
        StarFreeKeyIsKept(e.key, aliases);
        if e.value.Str? {
          NamesAreMasked(e.value.text, after, tails);
        }
      }
      MaskedItem(e, after, tails);
    }
  }

  lemma MaskedItem(e: Entry, aliases: AliasMap, tails: seq<string>)
    ensures var item := MaskName(e.key, Redact(e.value, aliases, tails).0, tails);
      && (item.Str? <==> e.value.Str?)
      && (e.value.Str? && NameKey(e.key) ==> item.text == MaskTails(RedactText(e.value.text, aliases).0, tails))
      && (!e.value.Str? ==> item == Redact(e.value, aliases, tails).0)
      && (item.Str? ==> NamesMasked(item, tails))
  {
  }

  lemma {:induction false} EntryNamesAreMasked(entries: seq<Entry>, aliases: AliasMap, tails: seq<string>,
                                               done: seq<Entry>)
    requires Valid(aliases) && ProperTails(tails)
    requires forall i | 0 <= i < |entries| :: NameStarFree(entries[i])
    requires AllNamesMasked(done, tails)
    ensures AllNamesMasked(RedactEntries(entries, aliases, tails, done).0, tails)
    decreases entries, 0
  {
    hide AllNamesMasked, NameMasked, NameStarFree, Put, RedactEntry, ProperTails;
    if entries != [] {
      var (e, after) := RedactEntry(entries[0], aliases, tails);
      EntryKeepsTable(entries[0], aliases, tails);
      OneNameIsMasked(entries[0], aliases, tails);
      PutHolds(done, e, tails);
      EntryNamesAreMasked(entries[1..], after, tails, Put(done, e));
    }
  }

  // ----------------------------------------------------------- the order of the numbers

  function SerialsOfKey(key: Key): seq<string> {
    match key
    case TextKey(s) => SerialsIn(s)
    case OtherKey(_) => []
  }

  /** The serials of a tree in the order they are met: a key before its value, a captured frame not at all. */
  function SerialsOf(value: Json): seq<string>
    decreases value, 1
  {
    match value
    case Str(s) => SerialsIn(s)
    case Leaf(_) => []
    case List(items) => SerialsOfItems(items)
    case Dict(entries) => SerialsOfEntries(entries)
  }

  function SerialsOfItems(items: seq<Json>): seq<string>
    decreases items, 0
  {
    if items == [] then [] else SerialsOf(items[0]) + SerialsOfItems(items[1..])
  }

  function SerialsOfEntry(e: Entry): seq<string>
    decreases e, 2
  {
    SerialsOfKey(e.key)
      + if e.key == TextKey("hex") || e.key == TextKey("frame_hex") then [] else SerialsOf(e.value)
  }

  function SerialsOfEntries(entries: seq<Entry>): seq<string>
    decreases entries, 0
  {
    if entries == [] then [] else SerialsOfEntry(entries[0]) + SerialsOfEntries(entries[1..])
  }

  /** The table of a pass is the serials looked up in that order, so they are numbered as they are met. */
  lemma {:induction false} TableIsInOrder(value: Json, aliases: AliasMap, tails: seq<string>)
    ensures Redact(value, aliases, tails).1 == AliasAll(SerialsOf(value), aliases)
    decreases value, 1
  {
    match value
    case Str(s) => TextInOrder(s, aliases);
    case Leaf(_) =>
    case List(items) => ItemsInOrder(items, aliases, tails);
    case Dict(entries) => EntriesInOrder(entries, aliases, tails, []);
  }

  lemma {:induction false} ItemsInOrder(items: seq<Json>, aliases: AliasMap, tails: seq<string>)
    ensures RedactItems(items, aliases, tails).1 == AliasAll(SerialsOfItems(items), aliases)
    decreases items, 0
  {
    if items != [] {
      var after := Redact(items[0], aliases, tails).1;
      TableIsInOrder(items[0], aliases, tails);
      ItemsInOrder(items[1..], after, tails);
      AliasAllJoin(SerialsOf(items[0]), SerialsOfItems(items[1..]), aliases);
    }
  }

  lemma {:induction false} EntryInOrder(e: Entry, aliases: AliasMap, tails: seq<string>)
    ensures RedactEntry(e, aliases, tails).1 == AliasAll(SerialsOfEntry(e), aliases)
    decreases e, 2
  {
    var after := RedactKey(e.key, aliases).1;
    if e.key.TextKey? {
      TextInOrder(e.key.text, aliases);
    }
    assert after == AliasAll(SerialsOfKey(e.key), aliases);
    if PreSanitized(e.key) {
      assert SerialsOfEntry(e) == SerialsOfKey(e.key);
    } else {
      TableIsInOrder(e.value, after, tails);
      AliasAllJoin(SerialsOfKey(e.key), SerialsOf(e.value), aliases);
    }
  }

  lemma {:induction false} EntriesInOrder(entries: seq<Entry>, aliases: AliasMap, tails: seq<string>, done: seq<Entry>)
    ensures RedactEntries(entries, aliases, tails, done).1 == AliasAll(SerialsOfEntries(entries), aliases)
    decreases entries, 0
  {
    if entries != [] {
      var (e, after) := RedactEntry(entries[0], aliases, tails);
      EntryInOrder(entries[0], aliases, tails);
      EntriesInOrder(entries[1..], after, tails, Put(done, e));
      AliasAllJoin(SerialsOfEntry(entries[0]), SerialsOfEntries(entries[1..]), aliases);
    }
  }
}
