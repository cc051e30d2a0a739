/** The changes of one commit window, and the log they are written to. */
module Changes {
  import opened Wrappers
  import opened PathCodec
  import opened Nodes

  datatype Change = Change(oldValue: Option<Stored>, newValue: Option<Stored>)

  type ChangeBatch = map<TrieKey, Change>

  const KEY_SEPARATOR: Byte := 0
  const NEW_VALUE: Byte := 0
  const OLD_VALUE: Byte := 1

  function Fetch(db: Database, key: TrieKey): Option<Stored> {
    if key in db then Some(db[key]) else None
  }

  /** db with the key bound to the value, or without it. */
  function Write(db: Database, key: TrieKey, value: Option<Stored>): Database {
    if value.Some? then db[key := value.value] else db - {key}
  }

  // ----- recording -----

  /** A second change of a key keeps the first old value, if there is one. */
  function InsertInPlace(batch: ChangeBatch, key: TrieKey, change: Change): ChangeBatch {
    if key in batch then
      batch[key := Change(if batch[key].oldValue.None? then change.oldValue else batch[key].oldValue, change.newValue)]
    else batch[key := change]
  }

  /** The batch says of every key what it was in the first database and is in the second. */
  ghost predicate Records(batch: ChangeBatch, before: Database, now: Database) {
    && (forall k :: k in batch ==> batch[k] == Change(Fetch(before, k), Fetch(now, k)))
    && forall k: TrieKey :: k !in batch ==> Fetch(now, k) == Fetch(before, k)
  }

  /** The key was absent before the window and has been given a value in it. */
  predicate AddedInWindow(batch: ChangeBatch, key: TrieKey) {
    key in batch && batch[key].oldValue.None? && batch[key].newValue.Some?
  }

  /** Recording one more write goes wrong exactly when the key was first added within the same window:
      then the value it was given there is taken for the original one. */
  lemma {:induction false} RecordWrite(batch: ChangeBatch, before: Database, now: Database, key: TrieKey,
          value: Option<Stored>)
    requires Records(batch, before, now)
    ensures Records(InsertInPlace(batch, key, Change(Fetch(now, key), value)), before, Write(now, key, value))
            <==> !AddedInWindow(batch, key)
  {
    var batch' := InsertInPlace(batch, key, Change(Fetch(now, key), value));
    if AddedInWindow(batch, key) {
      assert batch'[key].oldValue != Fetch(before, key);
    }
  }

  /** A key given one value and then another in the window that first has it: the batch takes the first for the value
      before the window. */
  lemma {:induction false} AddedThenChanged(key: TrieKey, u: Stored, v: Stored)
    ensures var batch := InsertInPlace(map[], key, Change(None, Some(u)));
            && Records(batch, map[], map[key := u])
            && !Records(InsertInPlace(batch, key, Change(Some(u), Some(v))), map[], map[key := v])
  {
    var batch := InsertInPlace(map[], key, Change(None, Some(u)));
    var now: Database := map[key := u];
    assert Write(now, key, Some(v)) == map[key := v];
    RecordWrite(batch, map[], now, key, Some(v));
  }

  /** The changes that do change something. */
  function Effective(batch: ChangeBatch): ChangeBatch {
    map k | k in batch && batch[k].oldValue != batch[k].newValue :: batch[k]
  }

  /** The database with the old values put back. */
  function Undone(now: Database, batch: ChangeBatch): Database {
    map k | k in now.Keys + batch.Keys && (k in batch ==> batch[k].oldValue.Some?) ::
      if k in batch then batch[k].oldValue.value else now[k]
  }

  /** Putting the old values of the effective changes back restores the first database. */
  lemma {:induction false} UndoRestores(batch: ChangeBatch, before: Database, now: Database)
    requires Records(batch, before, now)
    ensures Undone(now, Effective(batch)) == before
  {
    var e := Effective(batch);
    forall k: TrieKey ensures Fetch(Undone(now, e), k) == Fetch(before, k) {
      if k !in e {
        assert Fetch(now, k) == Fetch(before, k);
      }
    }
    SameFetches(Undone(now, e), before);
  }

  lemma {:induction false} SameFetches(a: Database, b: Database)
    requires forall k: TrieKey :: Fetch(a, k) == Fetch(b, k)
    ensures a == b
  {
    forall k: TrieKey ensures k in a <==> k in b { assert Fetch(a, k) == Fetch(b, k); }
    forall k | k in a ensures a[k] == b[k] { assert Fetch(a, k) == Fetch(b, k); }
  }

  // ----- log keys -----

  function Variant(key: TrieKey): Byte {
    if key.NodeEntry? then 0 else 1
  }

  /** The trie key and the kind at the end of a log key, after an id of n bytes and the separator. */
  function FromLogKey(n: nat, s: ByteVec): (r: (TrieKey, Byte))
    requires |s| >= n + 3
  {
    var bytes := s[n + 1..|s| - 2];
    (if s[|s| - 2] == 0 then NodeEntry(bytes) else FlatEntry(bytes), s[|s| - 1])
  }

  /** The key in the log of a trie key's old or new value under the commit id. */
  function LogKey(id: ByteVec, key: TrieKey, kind: Byte): (s: ByteVec)
    ensures |s| == |id| + 3 + |key.bytes| && id <= s && s[|id|] == 0
    ensures s[|s| - 2] == (if key.NodeEntry? then 0 else 1) && s[|s| - 1] == kind
    ensures FromLogKey(|id|, s) == (key, kind)
  {
    var s := id + [KEY_SEPARATOR] + key.bytes + [Variant(key)] + [kind];
    assert s[|id| + 1..|s| - 2] == key.bytes;
    s
  }

  /** The commit id as eight bytes, most significant first. */
  function BigEndian(n: nat, len: nat): (s: ByteVec)
    ensures |s| == len
  {
    if len == 0 then [] else BigEndian(n / 256, len - 1) + [(n % 256) as Byte]
  }

  function Pow256(len: nat): nat {
    if len == 0 then 1 else 256 * Pow256(len - 1)
  }

  lemma {:induction false} BigEndianInjective(m: nat, n: nat, len: nat)
    requires m < Pow256(len) && n < Pow256(len) && BigEndian(m, len) == BigEndian(n, len)
    ensures m == n
  {
    if len > 0 {
      var (s, t) := (BigEndian(m, len), BigEndian(n, len));
      assert s[..len - 1] == BigEndian(m / 256, len - 1) && t[..len - 1] == BigEndian(n / 256, len - 1);
      assert s[len - 1] == t[len - 1];
      BigEndianInjective(m / 256, n / 256, len - 1);
    }
  }

  newtype CommitId = x: int | 0 <= x < 0x1_0000_0000_0000_0000

  function IdBytes(id: CommitId): (s: ByteVec)
    ensures |s| == 8
  {
    BigEndian(id as nat, 8)
  }

  lemma {:induction false} IdInjective(i: CommitId, j: CommitId)
    requires IdBytes(i) == IdBytes(j)
    ensures i == j
  {
    assert Pow256(8) == 0x1_0000_0000_0000_0000 by {
      assert Pow256(4) == 0x1_0000_0000;
      assert Pow256(8) == 256 * 256 * 256 * 256 * Pow256(4);
    }
    BigEndianInjective(i as nat, j as nat, 8);
  }

  /** The eight bytes are the id as a big-endian number. */
  lemma {:induction false} IdNumber(id: CommitId)
    ensures BytesNumber(IdBytes(id)) == id as int
  {
    assert Pow256(8) == 0x1_0000_0000_0000_0000 by {
      assert Pow256(4) == 0x1_0000_0000;
      assert Pow256(8) == 256 * 256 * 256 * 256 * Pow256(4);
    }
    BigEndianNumber(id as nat, 8);
  }

  lemma {:induction false} BigEndianNumber(n: nat, len: nat)
    requires n < Pow256(len)
    ensures BytesNumber(BigEndian(n, len)) == n
  {
    if len > 0 {
      BigEndianNumber(n / 256, len - 1);
      assert BigEndian(n, len)[..len - 1] == BigEndian(n / 256, len - 1);
    }
  }

  // ----- writing the log -----

  type Listing = seq<(ByteVec, Stored)>

  function MapOf(entries: Listing): (m: map<ByteVec, Stored>)
    ensures forall i :: 0 <= i < |entries| ==> entries[i].0 in m
    ensures forall s :: s in m ==> exists i :: 0 <= i < |entries| && entries[i] == (s, m[s])
  {
    if entries == [] then map[] else
      MapOf(entries[..|entries| - 1])[entries[|entries| - 1].0 := entries[|entries| - 1].1]
  }

  /** The entries are the map's, each once, in any order. */
  ghost predicate Lists(entries: Listing, m: map<ByteVec, Stored>) {
    MapOf(entries) == m && forall i, j :: 0 <= i < j < |entries| ==> entries[i].0 != entries[j].0
  }

  /** What one change puts into the log: nothing if it changes nothing, otherwise the old and new values there are. */
  function Entries(id: ByteVec, key: TrieKey, change: Change): Listing {
    if change.oldValue.Some? && change.oldValue == change.newValue then []
    else
      (if change.oldValue.Some? then [(LogKey(id, key, OLD_VALUE), change.oldValue.value)] else []) +
      (if change.newValue.Some? then [(LogKey(id, key, NEW_VALUE), change.newValue.value)] else [])
  }

  /** The log of a batch: the old and new values of its effective changes. */
  function LogEntries(id: ByteVec, batch: ChangeBatch): map<ByteVec, Stored> {
    var e := Effective(batch);
    (map k | k in e && e[k].oldValue.Some? :: LogKey(id, k, OLD_VALUE) := e[k].oldValue.value) +
    (map k | k in e && e[k].newValue.Some? :: LogKey(id, k, NEW_VALUE) := e[k].newValue.value)
  }

  /** What is under a key of the log. */
  lemma {:induction false} LogEntriesAt(id: ByteVec, batch: ChangeBatch, k: TrieKey)
    ensures var m, e := LogEntries(id, batch), Effective(batch);
            && (LogKey(id, k, OLD_VALUE) in m <==> k in e && e[k].oldValue.Some?)
            && (LogKey(id, k, NEW_VALUE) in m <==> k in e && e[k].newValue.Some?)
            && (LogKey(id, k, OLD_VALUE) in m ==> m[LogKey(id, k, OLD_VALUE)] == e[k].oldValue.value)
            && (LogKey(id, k, NEW_VALUE) in m ==> m[LogKey(id, k, NEW_VALUE)] == e[k].newValue.value)
  {
  }

  /** The log holds nothing else. */
  lemma {:induction false} LogEntriesOnly(id: ByteVec, batch: ChangeBatch, s: ByteVec)
    requires s in LogEntries(id, batch)
    ensures |s| >= |id| + 3 && id <= s
    ensures var (k, kind) := FromLogKey(|id|, s);
            s == LogKey(id, k, kind) && (kind == OLD_VALUE || kind == NEW_VALUE) && k in Effective(batch)
  {
  }

  /** The log of a window, byte by byte. Under the id, a zero, the key's bytes, a zero for a node or a one for a flat
      value, and a last one there is what the key had before the window, if that has changed and was something; with a
      last zero what it has after. */
  lemma {:induction false} LogOfWindow(id: ByteVec, batch: ChangeBatch, before: Database, now: Database, k: TrieKey)
    requires Records(batch, before, now)
    ensures var m, start := LogEntries(id, batch), id + [0] + k.bytes + [if k.NodeEntry? then 0 else 1];
            && (start + [1] in m <==> Fetch(before, k) != Fetch(now, k) && k in before)
            && (start + [1] in m ==> m[start + [1]] == before[k])
            && (start + [0] in m <==> Fetch(before, k) != Fetch(now, k) && k in now)
            && (start + [0] in m ==> m[start + [0]] == now[k])
  {
    var start := id + [0] + k.bytes + [if k.NodeEntry? then 0 else 1];
    assert LogKey(id, k, OLD_VALUE) == start + [1] && LogKey(id, k, NEW_VALUE) == start + [0];
    LogEntriesAt(id, batch, k);
    hide LogEntries, LogKey;
    assert k !in batch ==> Fetch(now, k) == Fetch(before, k);
  }

  lemma {:induction false} ListsOneMore(entries: Listing, m: map<ByteVec, Stored>, key: ByteVec, value: Stored)
    requires Lists(entries, m) && key !in m
    ensures Lists(entries + [(key, value)], m[key := value])
  {
    assert (entries + [(key, value)])[..|entries|] == entries;
  }

  /** The entries of one more key of the batch. */
  lemma {:induction false} ListsOneChange(id: ByteVec, batch: ChangeBatch, entries: Listing, remaining: set<TrieKey>,
          k: TrieKey)
    requires k in remaining && remaining <= batch.Keys && Lists(entries, LogEntries(id, batch - remaining))
    ensures Lists(entries + Entries(id, k, batch[k]), LogEntries(id, batch - (remaining - {k})))
  {
    hide LogKey, Lists, MapOf, LogEntries;
    var m, m' := LogEntries(id, batch - remaining), LogEntries(id, batch - (remaining - {k}));
    var c := batch[k];
    var old', new' := LogKey(id, k, OLD_VALUE), LogKey(id, k, NEW_VALUE);
    LogEntriesAt(id, batch - remaining, k);
    LogEntriesAt(id, batch - (remaining - {k}), k);
    assert old' != new' by { assert FromLogKey(|id|, old').1 != FromLogKey(|id|, new').1; }
    var withOld := if c.oldValue.Some? then m[old' := c.oldValue.value] else m;
    if c.oldValue == c.newValue {
      SameLog(id, batch - remaining, batch - (remaining - {k}));
      assert Entries(id, k, c) == [] && entries + [] == entries;
    } else {
      var first := if c.oldValue.Some? then entries + [(old', c.oldValue.value)] else entries;
      if c.oldValue.Some? { ListsOneMore(entries, m, old', c.oldValue.value); }
      if c.newValue.Some? { ListsOneMore(first, withOld, new', c.newValue.value); }
      var last := if c.newValue.Some? then withOld[new' := c.newValue.value] else withOld;
      assert entries + Entries(id, k, c) == if c.newValue.Some? then first + [(new', c.newValue.value)] else first;
      OneMoreKey(id, batch, remaining, k, last);
    }
  }

  lemma {:induction false} SameLog(id: ByteVec, batch: ChangeBatch, batch': ChangeBatch)
    requires Effective(batch) == Effective(batch')
    ensures LogEntries(id, batch) == LogEntries(id, batch')
  {
  }

  lemma {:induction false} OneMoreKey(id: ByteVec, batch: ChangeBatch, remaining: set<TrieKey>, k: TrieKey,
          m': map<ByteVec, Stored>)
    requires k in remaining && remaining <= batch.Keys && batch[k].oldValue != batch[k].newValue
    requires var m, c := LogEntries(id, batch - remaining), batch[k];
             var withOld := if c.oldValue.Some? then m[LogKey(id, k, OLD_VALUE) := c.oldValue.value] else m;
             m' == if c.newValue.Some? then withOld[LogKey(id, k, NEW_VALUE) := c.newValue.value] else withOld
    ensures m' == LogEntries(id, batch - (remaining - {k}))
  {
    hide LogKey, LogEntries;
    var m, n := LogEntries(id, batch - remaining), LogEntries(id, batch - (remaining - {k}));
    LogEntriesAt(id, batch - (remaining - {k}), k);
    LogEntriesAt(id, batch - remaining, k);
    forall s ensures s in m' <==> s in n {
      if s in m' || s in n { LogEntryMoves(id, batch, remaining, k, m', s); }
    }
    forall s | s in m' ensures m'[s] == n[s] { LogEntryMoves(id, batch, remaining, k, m', s); }
  }

  lemma {:induction false} LogEntryMoves(id: ByteVec, batch: ChangeBatch, remaining: set<TrieKey>, k: TrieKey,
          m': map<ByteVec, Stored>, s: ByteVec)
    requires k in remaining && remaining <= batch.Keys && batch[k].oldValue != batch[k].newValue
    requires var m, c := LogEntries(id, batch - remaining), batch[k];
             var withOld := if c.oldValue.Some? then m[LogKey(id, k, OLD_VALUE) := c.oldValue.value] else m;
             m' == if c.newValue.Some? then withOld[LogKey(id, k, NEW_VALUE) := c.newValue.value] else withOld
    requires s in m' || s in LogEntries(id, batch - (remaining - {k}))
    ensures var n := LogEntries(id, batch - (remaining - {k})); s in m' && s in n && m'[s] == n[s]
  {
    hide LogKey, LogEntries;
    var b, b' := batch - remaining, batch - (remaining - {k});
    if s in LogEntries(id, b') { LogEntriesOnly(id, b', s); }
    if s in LogEntries(id, b) { LogEntriesOnly(id, b, s); }
    assert |s| >= |id| + 3;
    var j := FromLogKey(|id|, s).0;
    LogEntriesAt(id, b, j);
    LogEntriesAt(id, b', j);
    LogEntriesAt(id, b', k);
  }

  /** Where a key has both entries, the new value follows the old one at once. */
  ghost predicate OldFirst(id: ByteVec, entries: Listing) {
    forall k, i, j ::
      && 0 <= i < |entries| && 0 <= j < |entries|
      && entries[i].0 == LogKey(id, k, OLD_VALUE) && entries[j].0 == LogKey(id, k, NEW_VALUE)
      ==> j == i + 1
  }

  lemma {:induction false} OldFirstMore(id: ByteVec, batch: ChangeBatch, entries: Listing, remaining: set<TrieKey>,
          key: TrieKey)
    requires OldFirst(id, entries) && Lists(entries, LogEntries(id, batch - remaining))
    requires key in remaining && remaining <= batch.Keys
    ensures OldFirst(id, entries + Entries(id, key, batch[key]))
  {
    hide LogKey, LogEntries, Lists, MapOf, FromLogKey;
    var more := Entries(id, key, batch[key]);
    LogEntriesAt(id, batch - remaining, key);
    EntryPositions(entries, LogEntries(id, batch - remaining));
    forall k, i, j | 0 <= i < |entries + more| && 0 <= j < |entries + more|
      && (entries + more)[i].0 == LogKey(id, k, OLD_VALUE) && (entries + more)[j].0 == LogKey(id, k, NEW_VALUE)
      ensures j == i + 1
    {
      assert FromLogKey(|id|, LogKey(id, k, OLD_VALUE)) == (k, OLD_VALUE);
      assert FromLogKey(|id|, LogKey(id, k, NEW_VALUE)) == (k, NEW_VALUE);
      assert FromLogKey(|id|, LogKey(id, key, OLD_VALUE)) == (key, OLD_VALUE);
      assert FromLogKey(|id|, LogKey(id, key, NEW_VALUE)) == (key, NEW_VALUE);
    }
  }

  method Serialize(id: ByteVec, batch: ChangeBatch) returns (entries: Listing)
    ensures Lists(entries, LogEntries(id, batch)) && OldFirst(id, entries)
  {
    hide LogKey, LogEntries, Lists, Entries, OldFirst;
    assert OldFirst(id, []) by { NoneOldFirst(id); }
    entries := [];
    var remaining := batch.Keys;
    NothingListed(id, batch);
    while remaining != {}
      invariant remaining <= batch.Keys && Lists(entries, LogEntries(id, batch - remaining)) && OldFirst(id, entries)
    {
      var key :| key in remaining;
      ListsOneChange(id, batch, entries, remaining, key);
      OldFirstMore(id, batch, entries, remaining, key);
      entries := entries + Entries(id, key, batch[key]);
      remaining := remaining - {key};
    }
    assert batch - remaining == batch;
  }

  lemma {:induction false} NoneOldFirst(id: ByteVec)
    ensures OldFirst(id, [])
  {
  }

  lemma {:induction false} NothingListed(id: ByteVec, batch: ChangeBatch)
    ensures Lists([], LogEntries(id, batch - batch.Keys))
  {
  }

  // ----- reading the log -----

  predicate WellFormed(n: nat, s: ByteVec) {
    |s| >= n + 3 && s[|s| - 2] <= 1 && s[|s| - 1] <= 1
  }

  function WithValue(change: Change, kind: Byte, value: Stored): Change {
    if kind == NEW_VALUE then change.(newValue := Some(value)) else change.(oldValue := Some(value))
  }

  /** How far the reader is: the finished changes, the one being put together, and the key it belongs to. */
  datatype Progress = Progress(batch: ChangeBatch, current: Change, last: Option<TrieKey>) {
    function Flushed(): ChangeBatch {
      if last.Some? && (current.newValue.Some? || current.oldValue.Some?) then InsertInPlace(batch, last.value, current)
      else batch
    }

    function Next(k: TrieKey, kind: Byte, value: Stored): Progress {
      if last.Some? && last.value != k then
        Progress(InsertInPlace(batch, last.value, current), WithValue(Change(None, None), kind, value), Some(k))
      else Progress(batch, WithValue(current, kind, value), Some(k))
    }
  }

  /** Adjacent entries of one key make one change. */
  function Scan(n: nat, entries: Listing): Progress
    requires forall i :: 0 <= i < |entries| ==> WellFormed(n, entries[i].0)
  {
    if entries == [] then Progress(map[], Change(None, None), None) else
      assert WellFormed(n, entries[|entries| - 1].0);
      var (s, value) := entries[|entries| - 1];
      var (k, kind) := FromLogKey(n, s);
      Scan(n, entries[..|entries| - 1]).Next(k, kind, value)
  }

  /** The source panics on a malformed key. */
  method Deserialize(id: ByteVec, entries: Listing) returns (r: Result<ChangeBatch, string>)
    ensures r.Success? <==> forall i :: 0 <= i < |entries| ==> WellFormed(|id|, entries[i].0)
    ensures r.Success? ==> r.value == Scan(|id|, entries).Flushed()
  {
    var batch: ChangeBatch := map[];
    var currentChange := Change(None, None);
    var lastKey: Option<TrieKey> := None;
    for i := 0 to |entries|
      invariant forall j :: 0 <= j < i ==> WellFormed(|id|, entries[j].0)
      invariant Scan(|id|, entries[..i]) == Progress(batch, currentChange, lastKey)
    {
      var (key, value) := entries[i];
      assert entries[..i + 1][..i] == entries[..i];
      if |key| < |id| + 3 { return Failure("Invalid key format"); }
      var changeType, keyType := key[|key| - 1], key[|key| - 2];
      var bytes := key[|id| + 1..|key| - 2];
      if keyType > 1 { return Failure("Invalid trie key type"); }
      var changeKey := if keyType == 0 then NodeEntry(bytes) else FlatEntry(bytes);
      if lastKey.Some? && lastKey.value != changeKey {
        batch := InsertInPlace(batch, lastKey.value, currentChange);
        currentChange := Change(None, None);
      }
      if changeType == NEW_VALUE {
        currentChange := currentChange.(newValue := Some(value));
      } else if changeType == OLD_VALUE {
        currentChange := currentChange.(oldValue := Some(value));
      } else {
        return Failure("Invalid change type");
      }
      lastKey := Some(changeKey);
    }
    assert entries[..|entries|] == entries;
    if lastKey.Some? && (currentChange.newValue.Some? || currentChange.oldValue.Some?) {
      batch := InsertInPlace(batch, lastKey.value, currentChange);
    }
    return Success(batch);
  }

  // ----- what is read back -----

  predicate OfKey(n: nat, entries: Listing, i: nat, k: TrieKey) {
    i < |entries| && WellFormed(n, entries[i].0) && FromLogKey(n, entries[i].0).0 == k
  }

  ghost predicate Readable(n: nat, entries: Listing) {
    && (forall i :: 0 <= i < |entries| ==> WellFormed(n, entries[i].0))
    && forall i, j :: 0 <= i < j < |entries| ==> FromLogKey(n, entries[i].0) != FromLogKey(n, entries[j].0)
  }

  /** No entry of the key: the reader has not seen it. */
  lemma {:induction false} ScanNone(n: nat, entries: Listing, k: TrieKey)
    requires Readable(n, entries) && forall i :: 0 <= i < |entries| ==> !OfKey(n, entries, i, k)
    ensures var p := Scan(n, entries); k !in p.batch && p.last != Some(k)
    ensures entries != [] ==> Scan(n, entries).last.Some?
  {
    if entries != [] {
      var rest := entries[..|entries| - 1];
      forall i | 0 <= i < |rest| ensures !OfKey(n, rest, i, k) { assert !OfKey(n, entries, i, k); }
      assert !OfKey(n, entries, |entries| - 1, k);
      ScanNone(n, rest, k);
    }
  }

  /** One entry of the key: its change has the value of that entry. */
  lemma {:induction false} ScanOne(n: nat, entries: Listing, k: TrieKey, i: nat)
    requires Readable(n, entries) && OfKey(n, entries, i, k)
    requires forall x :: 0 <= x < |entries| && x != i ==> !OfKey(n, entries, x, k)
    ensures var p, c := Scan(n, entries), WithValue(Change(None, None), FromLogKey(n, entries[i].0).1, entries[i].1);
            && (i == |entries| - 1 ==> p.last == Some(k) && p.current == c && k !in p.batch)
            && (i < |entries| - 1 ==> p.last.Some? && p.last.value != k && k in p.batch && p.batch[k] == c)
  {
    var rest := entries[..|entries| - 1];
    forall x | 0 <= x < |rest| && x != i ensures !OfKey(n, rest, x, k) { assert !OfKey(n, entries, x, k); }
    if i == |entries| - 1 {
      ScanNone(n, rest, k);
    } else {
      assert OfKey(n, rest, i, k) && !OfKey(n, entries, |entries| - 1, k);
      ScanOne(n, rest, k, i);
    }
  }

  /** Its new value is lost when it comes before its old value with other entries in between. */
  function Joined(n: nat, entries: Listing, i: nat, j: nat): Change
    requires i < j < |entries|
    requires forall i :: 0 <= i < |entries| ==> WellFormed(n, entries[i].0)
  {
    assert WellFormed(n, entries[i].0);
    if FromLogKey(n, entries[i].0).1 == OLD_VALUE then Change(Some(entries[i].1), Some(entries[j].1))
    else Change(Some(entries[j].1), if i + 1 == j then Some(entries[i].1) else None)
  }

  /** The last entry read, onto what was read before it. */
  lemma {:induction false} ScanLast(n: nat, entries: Listing, k: TrieKey, i: nat, j: nat)
    requires Readable(n, entries) && i < j == |entries| - 1 && OfKey(n, entries, i, k) && OfKey(n, entries, j, k)
    requires var p, c := Scan(n, entries[..j]),
               WithValue(Change(None, None), FromLogKey(n, entries[i].0).1, entries[i].1);
             && (i == j - 1 ==> p.last == Some(k) && p.current == c && k !in p.batch)
             && (i < j - 1 ==> p.last.Some? && p.last.value != k && k in p.batch && p.batch[k] == c)
    ensures var p := Scan(n, entries);
            k in p.Flushed() && p.Flushed()[k] == Joined(n, entries, i, j) && p.last == Some(k)
  {
    var p := Scan(n, entries[..j]);
    assert FromLogKey(n, entries[i].0) != FromLogKey(n, entries[j].0);
    var q := p.Next(k, FromLogKey(n, entries[j].0).1, entries[j].1);
    assert Scan(n, entries) == q;
    hide Scan, FromLogKey;
  }

  /** Two entries of the key. */
  lemma {:induction false} ScanTwo(n: nat, entries: Listing, k: TrieKey, i: nat, j: nat)
    requires Readable(n, entries) && i < j && OfKey(n, entries, i, k) && OfKey(n, entries, j, k)
    requires forall x :: 0 <= x < |entries| && x != i && x != j ==> !OfKey(n, entries, x, k)
    ensures var p := Scan(n, entries);
            && k in p.Flushed() && p.Flushed()[k] == Joined(n, entries, i, j)
            && (j == |entries| - 1 <==> p.last == Some(k))
            && (j < |entries| - 1 ==> p.last.Some? && k in p.batch && p.batch[k] == Joined(n, entries, i, j))
  {
    var rest := entries[..|entries| - 1];
    forall x | 0 <= x < |rest| && x != i && x != j ensures !OfKey(n, rest, x, k) { assert !OfKey(n, entries, x, k); }
    assert OfKey(n, rest, i, k);
    if j == |entries| - 1 {
      ScanOne(n, rest, k, i);
      ScanLast(n, entries, k, i, j);
    } else {
      assert OfKey(n, rest, j, k) && !OfKey(n, entries, |entries| - 1, k);
      ScanTwo(n, rest, k, i, j);
    }
  }

  /** A listing of a batch's log, in whatever order, can be read. */
  lemma {:induction false} ListingReadable(id: ByteVec, batch: ChangeBatch, entries: Listing)
    requires Lists(entries, LogEntries(id, batch))
    ensures Readable(|id|, entries)
    ensures forall i :: 0 <= i < |entries| ==> entries[i].0 in LogEntries(id, batch)
    ensures forall i :: 0 <= i < |entries| ==>
              entries[i].0 == LogKey(id, FromLogKey(|id|, entries[i].0).0, FromLogKey(|id|, entries[i].0).1)
  {
    hide LogKey, LogEntries;
    forall i | 0 <= i < |entries|
      ensures WellFormed(|id|, entries[i].0)
      ensures entries[i].0 == LogKey(id, FromLogKey(|id|, entries[i].0).0, FromLogKey(|id|, entries[i].0).1)
    {
      LogEntriesOnly(id, batch, entries[i].0);
      LogKeyVariant(id, FromLogKey(|id|, entries[i].0).0, FromLogKey(|id|, entries[i].0).1);
    }
  }

  lemma {:induction false} LogKeyVariant(id: ByteVec, k: TrieKey, kind: Byte)
    ensures var s := LogKey(id, k, kind); s[|s| - 2] <= 1 && s[|s| - 1] == kind
  {
  }

  /** The entry of a log key is somewhere in the listing. */
  lemma {:induction false} FindEntry(id: ByteVec, entries: Listing, m: map<ByteVec, Stored>, k: TrieKey, kind: Byte)
    returns (i: nat)
    requires Lists(entries, m) && LogKey(id, k, kind) in m
    ensures i < |entries| && entries[i] == (LogKey(id, k, kind), m[LogKey(id, k, kind)])
  {
    i :| 0 <= i < |entries| && entries[i] == (LogKey(id, k, kind), m[LogKey(id, k, kind)]);
  }

  /** The key's new value comes before its old value, with entries of other keys in between. */
  ghost predicate Torn(id: ByteVec, entries: Listing, k: TrieKey) {
    exists i, j ::
      && 0 <= i && i + 1 < j < |entries|
      && entries[i].0 == LogKey(id, k, NEW_VALUE) && entries[j].0 == LogKey(id, k, OLD_VALUE)
  }

  /** What reading a log back gives, in whatever order it is listed: exactly the effective changes, except that a change
      whose entries are torn apart loses its new value. */
  lemma {:induction false} ReadBack(id: ByteVec, batch: ChangeBatch, entries: Listing, k: TrieKey)
    requires Lists(entries, LogEntries(id, batch))
    ensures forall i :: 0 <= i < |entries| ==> WellFormed(|id|, entries[i].0)
    ensures var r, e := Scan(|id|, entries).Flushed(), Effective(batch);
            && (k in r <==> k in e)
            && (k in e ==> r[k] == Change(e[k].oldValue, if Torn(id, entries, k) then None else e[k].newValue))
  {
    hide LogKey, LogEntries, Lists, MapOf;
    ListingReadable(id, batch, entries);
    LogEntriesAt(id, batch, k);
    var n, m, e := |id|, LogEntries(id, batch), Effective(batch);
    var hasOld, hasNew := LogKey(id, k, OLD_VALUE) in m, LogKey(id, k, NEW_VALUE) in m;
    var oldKey, newKey := LogKey(id, k, OLD_VALUE), LogKey(id, k, NEW_VALUE);
    EntryPositions(entries, m);
    assert FromLogKey(n, oldKey).1 == OLD_VALUE && FromLogKey(n, newKey).1 == NEW_VALUE;
    assert oldKey != newKey;
    forall i | 0 <= i < |entries| && OfKey(n, entries, i, k) ensures entries[i].0 == oldKey || entries[i].0 == newKey {
      LogEntriesOnly(id, batch, entries[i].0);
    }
    if hasOld && hasNew {
      var o := FindEntry(id, entries, m, k, OLD_VALUE);
      var w := FindEntry(id, entries, m, k, NEW_VALUE);
      ScanTwo(n, entries, k, if o < w then o else w, if o < w then w else o);
    } else if hasOld {
      var o := FindEntry(id, entries, m, k, OLD_VALUE);
      ScanOne(n, entries, k, o);
    } else if hasNew {
      var w := FindEntry(id, entries, m, k, NEW_VALUE);
      ScanOne(n, entries, k, w);
    } else {
      ScanNone(n, entries, k);
    }
  }

  lemma {:induction false} EntryPositions(entries: Listing, m: map<ByteVec, Stored>)
    requires Lists(entries, m)
    ensures forall i :: 0 <= i < |entries| ==> entries[i].0 in m
    ensures forall i, j :: 0 <= i < |entries| && 0 <= j < |entries| && entries[i].0 == entries[j].0 ==> i == j
  {
  }

  /** The log of a batch reads back as its effective changes exactly when no change is torn apart. */
  lemma {:induction false} ReadBackExactly(id: ByteVec, batch: ChangeBatch, entries: Listing)
    requires Lists(entries, LogEntries(id, batch))
    ensures forall i :: 0 <= i < |entries| ==> WellFormed(|id|, entries[i].0)
    ensures Scan(|id|, entries).Flushed() == Effective(batch) <==> forall k :: !Torn(id, entries, k)
  {
    hide LogKey, LogEntries, Lists, MapOf, Scan, Torn, Effective;
    ListingReadable(id, batch, entries);
    var r, e := Scan(|id|, entries).Flushed(), Effective(batch);
    forall k
      ensures k in r <==> k in e
      ensures k in e ==> r[k] == Change(e[k].oldValue, if Torn(id, entries, k) then None else e[k].newValue)
    {
      ReadBack(id, batch, entries, k);
    }
    forall k | Torn(id, entries, k) ensures k in e && e[k].newValue.Some? {
      TornHasNew(id, batch, entries, k);
    }
  }

  lemma {:induction false} TornHasNew(id: ByteVec, batch: ChangeBatch, entries: Listing, k: TrieKey)
    requires Lists(entries, LogEntries(id, batch)) && Torn(id, entries, k)
    ensures k in Effective(batch) && Effective(batch)[k].newValue.Some?
  {
    EntryPositions(entries, LogEntries(id, batch));
    LogEntriesAt(id, batch, k);
  }

  // ----- sorted listings -----

  /** Lexicographic order on bytes. */
  predicate AtMost(a: ByteVec, b: ByteVec) {
    a == [] || (b != [] && (a[0] < b[0] || (a[0] == b[0] && AtMost(a[1..], b[1..]))))
  }

  lemma {:induction false} LessAfter(s: ByteVec, t: ByteVec, x: ByteVec, y: ByteVec)
    requires |s| == |t| && s != t && AtMost(s, t)
    ensures AtMost(s + x, t + y)
  {
    assert (s + x)[1..] == s[1..] + x && (t + y)[1..] == t[1..] + y;
    if s[0] == t[0] {
      assert s == [s[0]] + s[1..] && t == [t[0]] + t[1..];
      LessAfter(s[1..], t[1..], x, y);
    }
  }

  lemma {:induction false} BigEndianOrder(m: nat, n: nat, len: nat)
    requires m < n < Pow256(len)
    ensures AtMost(BigEndian(m, len), BigEndian(n, len)) && BigEndian(m, len) != BigEndian(n, len)
  {
    if BigEndian(m, len) == BigEndian(n, len) { BigEndianInjective(m, n, len); }
    var last, last' := [(m % 256) as Byte], [(n % 256) as Byte];
    if m / 256 < n / 256 {
      BigEndianOrder(m / 256, n / 256, len - 1);
      LessAfter(BigEndian(m / 256, len - 1), BigEndian(n / 256, len - 1), last, last');
    } else {
      AtMostAfter(BigEndian(m / 256, len - 1), last, last');
    }
  }

  /** In the order of their bytes all log entries of one commit come before all of a later one. */
  lemma {:induction false} LogOrder(i: CommitId, j: CommitId, k: TrieKey, k': TrieKey, kind: Byte, kind': Byte)
    requires i < j
    ensures AtMost(LogKey(IdBytes(i), k, kind), LogKey(IdBytes(j), k', kind'))
  {
    assert Pow256(8) == 0x1_0000_0000_0000_0000 by {
      assert Pow256(4) == 0x1_0000_0000;
      assert Pow256(8) == 256 * 256 * 256 * 256 * Pow256(4);
    }
    BigEndianOrder(i as nat, j as nat, 8);
    var s, t := LogKey(IdBytes(i), k, kind), LogKey(IdBytes(j), k', kind');
    hide LogKey, BigEndian, AtMost;
    assert s == IdBytes(i) + s[8..] && t == IdBytes(j) + t[8..];
    LessAfter(IdBytes(i), IdBytes(j), s[8..], t[8..]);
  }

  /** Only extensions of s0 lie strictly between s0 and s1. */
  lemma {:induction false} Between(s: ByteVec, x: ByteVec)
    requires AtMost(s + [0], x) && AtMost(x, s + [1]) && x != s + [1]
    ensures s + [0] <= x
  {
    if s != [] {
      assert (s + [0])[1..] == s[1..] + [0] && (s + [1])[1..] == s[1..] + [1];
      assert (s + [0])[0] == s[0] == (s + [1])[0] == x[0];
      assert x == [x[0]] + x[1..] && s + [1] == [x[0]] + (s[1..] + [1]);
      Between(s[1..], x[1..]);
      assert s + [0] == [x[0]] + (s[1..] + [0]);
    } else {
      assert x == [x[0]] + x[1..];
    }
  }

  ghost predicate Sorted(entries: Listing) {
    forall i, j :: 0 <= i < j < |entries| ==> AtMost(entries[i].0, entries[j].0)
  }

  /** No key's bytes are a proper prefix of another's. */
  predicate PrefixFree(keys: set<TrieKey>) {
    forall j, k :: j in keys && k in keys ==> !(j.bytes < k.bytes)
  }

  /** With no key a proper prefix of another, a sorted listing keeps both entries of every key together. */
  lemma {:induction false} SortedNotTorn(id: ByteVec, batch: ChangeBatch, entries: Listing, k: TrieKey)
    requires Lists(entries, LogEntries(id, batch)) && Sorted(entries) && PrefixFree(Effective(batch).Keys)
    ensures !Torn(id, entries, k)
  {
    hide LogEntries, Lists, MapOf, Effective;
    if Torn(id, entries, k) {
      TornHasNew(id, batch, entries, k);
      var i, j :|
        && 0 <= i && i + 1 < j < |entries|
        && entries[i].0 == LogKey(id, k, NEW_VALUE) && entries[j].0 == LogKey(id, k, OLD_VALUE);
      NoneBetween(id, batch, entries, k, i, j);
    }
  }

  lemma {:induction false} NoneBetween(id: ByteVec, batch: ChangeBatch, entries: Listing, k: TrieKey, i: nat, j: nat)
    requires Lists(entries, LogEntries(id, batch)) && Sorted(entries) && PrefixFree(Effective(batch).Keys)
             && k in Effective(batch)
    requires i < j < |entries| && entries[i].0 == LogKey(id, k, NEW_VALUE) && entries[j].0 == LogKey(id, k, OLD_VALUE)
    ensures i + 1 == j
  {
    hide LogEntries, Lists, MapOf, Effective, AtMost;
    EntryPositions(entries, LogEntries(id, batch));
    if i + 1 < j {
      var x := entries[i + 1].0;
      LogEntriesOnly(id, batch, x);
      var (k', kind) := FromLogKey(|id|, x);
      hide LogKey;
      BetweenKinds(id, k, k', kind);
    }
  }

  /** A log key between a key's new and old value belongs to an extension of the key. */
  lemma {:induction false} BetweenKinds(id: ByteVec, k: TrieKey, k': TrieKey, kind: Byte)
    requires var x := LogKey(id, k', kind);
             && AtMost(LogKey(id, k, NEW_VALUE), x) && AtMost(x, LogKey(id, k, OLD_VALUE))
             && x != LogKey(id, k, NEW_VALUE) && x != LogKey(id, k, OLD_VALUE)
    ensures k.bytes < k'.bytes
  {
    hide AtMost;
    var x := LogKey(id, k', kind);
    var s := id + [KEY_SEPARATOR] + k.bytes + [Variant(k)];
    var s' := id + [KEY_SEPARATOR] + k'.bytes + [Variant(k')];
    Between(s, x);
    assert s' + [kind] == x;
    assert |x| > |s| + 1;
    assert k.bytes == x[|id| + 1..][..|k.bytes|] == k'.bytes[..|k.bytes|];
  }

  /** The log of a batch with prefix-free keys, listed in order, reads back as exactly its effective changes. */
  lemma {:induction false} SortedRoundTrip(id: ByteVec, batch: ChangeBatch, entries: Listing)
    requires Lists(entries, LogEntries(id, batch)) && Sorted(entries) && PrefixFree(Effective(batch).Keys)
    ensures forall i :: 0 <= i < |entries| ==> WellFormed(|id|, entries[i].0)
    ensures Scan(|id|, entries).Flushed() == Effective(batch)
  {
    hide Lists, Torn, LogEntries, Sorted, Effective, Scan, PrefixFree;
    forall k ensures !Torn(id, entries, k) { SortedNotTorn(id, batch, entries, k); }
    ReadBackExactly(id, batch, entries);
  }

  lemma {:induction false} AtMostAfter(s: ByteVec, a: ByteVec, b: ByteVec)
    requires AtMost(a, b)
    ensures AtMost(s + a, s + b)
  {
    if s == [] {
      assert s + a == a && s + b == b;
    } else {
      AtMostAfter(s[1..], a, b);
      assert (s + a)[1..] == s[1..] + a && (s + b)[1..] == s[1..] + b;
    }
  }

  /** It takes no odd order to lose a value, only a key that goes on from another: of one key changed and one added in
      the same window, the sorted log does not give back the first one's new value. */
  lemma {:induction false} TornInOrder(id: ByteVec, bytes: ByteVec, a: Stored, b: Stored, c: Stored)
    returns (batch: ChangeBatch, entries: Listing)
    requires a != b
    ensures batch == map[NodeEntry(bytes) := Change(Some(a), Some(b)), NodeEntry(bytes + [0]) := Change(None, Some(c))]
    ensures Lists(entries, LogEntries(id, batch)) && Sorted(entries)
    ensures forall i :: 0 <= i < |entries| ==> WellFormed(|id|, entries[i].0)
    ensures Scan(|id|, entries).Flushed() != Effective(batch)
  {
    hide LogKey, LogEntries, Lists, Scan, WellFormed, Effective, AtMost;
    var k, j := NodeEntry(bytes), NodeEntry(bytes + [0]);
    batch := map[k := Change(Some(a), Some(b)), j := Change(None, Some(c))];
    entries := [(LogKey(id, k, NEW_VALUE), b), (LogKey(id, j, NEW_VALUE), c), (LogKey(id, k, OLD_VALUE), a)];
    TornOrder(id, bytes);
    TornLists(id, k, j, a, b, c);
    assert Torn(id, entries, k) by {
      assert entries[0].0 == LogKey(id, k, NEW_VALUE) && entries[2].0 == LogKey(id, k, OLD_VALUE);
    }
    ReadBackExactly(id, batch, entries);
  }

  lemma {:induction false} TornOrder(id: ByteVec, bytes: ByteVec)
    ensures var k, j := NodeEntry(bytes), NodeEntry(bytes + [0]);
            var x, y, z := LogKey(id, k, NEW_VALUE), LogKey(id, j, NEW_VALUE), LogKey(id, k, OLD_VALUE);
            AtMost(x, y) && AtMost(y, z) && AtMost(x, z)
  {
    var k, j := NodeEntry(bytes), NodeEntry(bytes + [0]);
    var s := id + [KEY_SEPARATOR] + bytes + [0];
    assert LogKey(id, k, NEW_VALUE) == s + [0] && LogKey(id, k, OLD_VALUE) == s + [1];
    assert LogKey(id, j, NEW_VALUE) == s + [0, 0];
    AtMostAfter(s, [0], [0, 0]);
    AtMostAfter(s, [0, 0], [1]);
    AtMostAfter(s, [0], [1]);
  }

  lemma {:induction false} TornEntries(id: ByteVec, k: TrieKey, j: TrieKey, a: Stored, b: Stored, c: Stored)
    requires k != j && a != b
    ensures var x, y, z := LogKey(id, k, NEW_VALUE), LogKey(id, j, NEW_VALUE), LogKey(id, k, OLD_VALUE);
            && x != y && y != z && x != z
            && LogEntries(id, map[k := Change(Some(a), Some(b)), j := Change(None, Some(c))]) ==
               map[x := b][y := c][z := a]
  {
    hide LogKey, LogEntries, FromLogKey;
    var batch: ChangeBatch := map[k := Change(Some(a), Some(b)), j := Change(None, Some(c))];
    var x, y, z := LogKey(id, k, NEW_VALUE), LogKey(id, j, NEW_VALUE), LogKey(id, k, OLD_VALUE);
    assert Effective(batch) == batch;
    LogEntriesAt(id, batch, k);
    LogEntriesAt(id, batch, j);
    forall s | s in LogEntries(id, batch) ensures s == x || s == y || s == z { LogEntriesOnly(id, batch, s); }
  }

  lemma {:induction false} ListsThree(x: ByteVec, y: ByteVec, z: ByteVec, a: Stored, b: Stored, c: Stored)
    requires x != y && y != z && x != z
    ensures Lists([(x, a), (y, b), (z, c)], map[x := a][y := b][z := c])
  {
    var none: Listing := [];
    assert Lists(none, map[]);
    hide Lists;
    ListsOneMore(none, map[], x, a);
    ListsOneMore(none + [(x, a)], map[x := a], y, b);
    ListsOneMore(none + [(x, a)] + [(y, b)], map[x := a][y := b], z, c);
    assert none + [(x, a)] + [(y, b)] + [(z, c)] == [(x, a), (y, b), (z, c)];
  }

  lemma {:induction false} TornLists(id: ByteVec, k: TrieKey, j: TrieKey, a: Stored, b: Stored, c: Stored)
    requires k != j && a != b
    ensures var batch := map[k := Change(Some(a), Some(b)), j := Change(None, Some(c))];
            var x, y, z := LogKey(id, k, NEW_VALUE), LogKey(id, j, NEW_VALUE), LogKey(id, k, OLD_VALUE);
            Lists([(x, b), (y, c), (z, a)], LogEntries(id, batch))
  {
    hide LogKey, LogEntries, FromLogKey, Lists;
    TornEntries(id, k, j, a, b, c);
    ListsThree(LogKey(id, k, NEW_VALUE), LogKey(id, j, NEW_VALUE), LogKey(id, k, OLD_VALUE), b, c, a);
  }

  /** Database keys of a tree are encoded paths, so none is a proper prefix of another. */
  lemma {:induction false} TreeKeysPrefixFree(keys: set<TrieKey>)
    requires forall k :: k in keys ==> k.bytes == EncodePath(PathOf(k.bytes))
    ensures PrefixFree(keys)
  {
    hide PathOf, EncodePath;
    forall j, k | j in keys && k in keys ensures !(j.bytes < k.bytes) {
      EncodePrefixFree(PathOf(j.bytes), PathOf(k.bytes));
    }
  }

  /** A log listed in any order undoes its commit: the old values it gives are all there, and no change it gives
      is without both values. */
  lemma {:induction false} UndoFromLog(id: ByteVec, batch: ChangeBatch, entries: Listing, before: Database,
          now: Database)
    requires Lists(entries, LogEntries(id, batch)) && Records(batch, before, now)
    ensures forall i :: 0 <= i < |entries| ==> WellFormed(|id|, entries[i].0)
    ensures var r := Scan(|id|, entries).Flushed();
            && Undone(now, r) == before
            && forall k :: k in r ==> r[k].oldValue.Some? || r[k].newValue.Some?
  {
    hide LogKey, LogEntries, Lists, MapOf, Scan, Torn, Records;
    ListingReadable(id, batch, entries);
    var r, e := Scan(|id|, entries).Flushed(), Effective(batch);
    forall k
      ensures k in r <==> k in e
      ensures k in e ==> r[k] == Change(e[k].oldValue, if Torn(id, entries, k) then None else e[k].newValue)
    {
      ReadBack(id, batch, entries, k);
    }
    forall k | k in r ensures r[k].oldValue.Some? || r[k].newValue.Some? {
      if Torn(id, entries, k) { TornHasOld(id, batch, entries, k); }
    }
    assert r.Keys == e.Keys;
    assert Undone(now, r) == Undone(now, e);
    UndoRestores(batch, before, now);
  }

  lemma {:induction false} TornHasOld(id: ByteVec, batch: ChangeBatch, entries: Listing, k: TrieKey)
    requires Lists(entries, LogEntries(id, batch)) && Torn(id, entries, k)
    ensures k in Effective(batch) && Effective(batch)[k].oldValue.Some?
  {
    EntryPositions(entries, LogEntries(id, batch));
    LogEntriesAt(id, batch, k);
  }
}
