/** The database behind the tree: the flat and trie tables, the trie log, and the changes of the current window. */
module KeyValueDb {
  import opened Wrappers
  import opened PathCodec
  import opened Nodes
  import opened Changes

  type Log = map<ByteVec, Stored>

  function WithPrefix(log: Log, prefix: ByteVec): Log {
    map s | s in log && prefix <= s :: log[s]
  }

  function WithoutPrefix(log: Log, prefix: ByteVec): Log {
    map s | s in log && !(prefix <= s) :: log[s]
  }

  // ----- keeping the last few logs -----

  /** The log after committing a batch under an id, with at most the given number of past logs kept. */
  function Logged(log: Log, id: CommitId, batch: ChangeBatch, maxSaved: Option<nat>): Log {
    if maxSaved == Some(0) then log else
      var grown := log + LogEntries(IdBytes(id), batch);
      if maxSaved.Some? && maxSaved.value <= id as nat then
        WithoutPrefix(grown, IdBytes((id as nat - maxSaved.value) as CommitId))
      else grown
  }

  lemma {:induction false} SameId(i: CommitId, j: CommitId, s: ByteVec)
    requires IdBytes(i) <= s && IdBytes(j) <= s
    ensures i == j
  {
    assert IdBytes(i) == s[..8] == IdBytes(j);
    IdInjective(i, j);
  }

  lemma {:induction false} LogHasId(id: CommitId, batch: ChangeBatch, s: ByteVec)
    requires s in LogEntries(IdBytes(id), batch)
    ensures IdBytes(id) <= s
  {
    LogEntriesOnly(IdBytes(id), batch, s);
  }

  /** What committing under one id does to the log of any id. */
  lemma {:induction false} LoggedUnder(log: Log, id: CommitId, batch: ChangeBatch, maxSaved: Option<nat>, i: CommitId)
    requires maxSaved != Some(0)
    ensures WithPrefix(Logged(log, id, batch, maxSaved), IdBytes(i)) ==
              if maxSaved.Some? && i as int == id as int - maxSaved.value then map[]
              else if i == id then WithPrefix(log, IdBytes(i)) + LogEntries(IdBytes(id), batch)
              else WithPrefix(log, IdBytes(i))
  {
    hide IdBytes, LogEntries;
    var log' := Logged(log, id, batch, maxSaved);
    var grown := log + LogEntries(IdBytes(id), batch);
    forall s | IdBytes(i) <= s
      ensures s in log' <==> s in grown && !(maxSaved.Some? && i as int == id as int - maxSaved.value)
      ensures s in LogEntries(IdBytes(id), batch) ==> i == id
    {
      if s in LogEntries(IdBytes(id), batch) {
        LogHasId(id, batch, s);
        SameId(i, id, s);
      }
      if maxSaved.Some? && maxSaved.value <= id as nat {
        var gone := (id as nat - maxSaved.value) as CommitId;
        if IdBytes(gone) <= s { SameId(i, gone, s); }
      }
    }
    forall s | s in LogEntries(IdBytes(id), batch) ensures IdBytes(id) <= s { LogHasId(id, batch, s); }
  }

  /** The log after committing the batches under the ids 0, 1, 2 and so on. */
  function LogAfter(batches: seq<ChangeBatch>, maxSaved: Option<nat>): Log
    requires |batches| < 0x1_0000_0000_0000_0000
  {
    if batches == [] then map[] else
      var n := |batches| - 1;
      Logged(LogAfter(batches[..n], maxSaved), n as CommitId, batches[n], maxSaved)
  }

  /** With a limit of m, the logs of the last m commits are there in full and nothing is left of the earlier ones;
      without a limit all of them are there; with a limit of zero none is. */
  lemma {:induction false} Retention(batches: seq<ChangeBatch>, maxSaved: Option<nat>, i: CommitId)
    requires |batches| < 0x1_0000_0000_0000_0000
    ensures WithPrefix(LogAfter(batches, maxSaved), IdBytes(i)) ==
              if i as nat < |batches| && (maxSaved.Some? ==> |batches| - maxSaved.value <= i as nat)
              then LogEntries(IdBytes(i), batches[i]) else map[]
  {
    hide IdBytes, LogEntries, WithPrefix, Logged;
    if batches == [] {
      NothingWithPrefix(IdBytes(i));
    } else {
      var n := |batches| - 1;
      Retention(batches[..n], maxSaved, i);
      if maxSaved == Some(0) {
        assert Logged(LogAfter(batches[..n], maxSaved), n as CommitId, batches[n], maxSaved) ==
          LogAfter(batches[..n], maxSaved)
          by { NotLogged(LogAfter(batches[..n], maxSaved), n as CommitId, batches[n]); }
      } else {
        LoggedUnder(LogAfter(batches[..n], maxSaved), n as CommitId, batches[n], maxSaved, i);
        assert map[] + LogEntries(IdBytes(i), batches[n]) == LogEntries(IdBytes(i), batches[n]);
      }
    }
  }

  lemma {:induction false} NotLogged(log: Log, id: CommitId, batch: ChangeBatch)
    ensures Logged(log, id, batch, Some(0)) == log
  {
  }

  lemma {:induction false} NothingWithPrefix(prefix: ByteVec)
    ensures WithPrefix(map[], prefix) == map[]
  {
  }

  /** Nothing is in the log under any other id. */
  lemma {:induction false} OnlyCommittedIds(batches: seq<ChangeBatch>, maxSaved: Option<nat>, s: ByteVec)
    requires |batches| < 0x1_0000_0000_0000_0000 && s in LogAfter(batches, maxSaved)
    ensures exists i: CommitId :: i as nat < |batches| && IdBytes(i) <= s
  {
    hide IdBytes, LogEntries;
    var n := |batches| - 1;
    if s in LogAfter(batches[..n], maxSaved) {
      OnlyCommittedIds(batches[..n], maxSaved, s);
    } else {
      LogHasId(n as CommitId, batches[n], s);
    }
  }

  // ----- undoing one commit -----

  lemma {:induction false} UndoneStep(now: Database, changes: ChangeBatch, remaining: set<TrieKey>, k: TrieKey)
    requires k in remaining && remaining <= changes.Keys
    ensures Write(Undone(now, changes - remaining), k, changes[k].oldValue) == Undone(now, changes - (remaining - {k}))
  {
  }

  class KeyValueDB {
    /** None keeps every trie log. */
    const maxSavedTrieLogs: Option<nat>
    /** The flat and the trie table. */
    var store: Database
    var trieLog: Log
    var currentChanges: ChangeBatch
    /** What the tables were when the current window began. */
    ghost var windowStart: Database

    /** The current changes say of every key what it was when the window began and what it is now. */
    ghost predicate Recorded()
      reads this
    {
      Records(currentChanges, windowStart, store)
    }

    constructor (maxSavedTrieLogs: Option<nat>)
      ensures this.maxSavedTrieLogs == maxSavedTrieLogs
      ensures store == map[] && trieLog == map[] && currentChanges == map[] && windowStart == map[] && Recorded()
    {
      this.maxSavedTrieLogs := maxSavedTrieLogs;
      store := map[];
      trieLog := map[];
      currentChanges := map[];
      windowStart := map[];
    }

    method Insert(key: TrieKey, value: Stored)
      modifies this`store, this`currentChanges
      ensures store == old(store)[key := value]
      ensures currentChanges == Changes.InsertInPlace(old(currentChanges), key,
                Change(Fetch(old(store), key), Some(value)))
      ensures old(Recorded()) ==> (Recorded() <==> !AddedInWindow(old(currentChanges), key))
    {
      var oldValue := if key in store then Some(store[key]) else None;
      if Recorded() { RecordWrite(currentChanges, windowStart, store, key, Some(value)); }
      store := store[key := value];
      currentChanges := Changes.InsertInPlace(currentChanges, key, Change(oldValue, Some(value)));
    }

    method Remove(key: TrieKey)
      modifies this`store, this`currentChanges
      ensures store == old(store) - {key}
      ensures currentChanges == Changes.InsertInPlace(old(currentChanges), key, Change(Fetch(old(store), key), None))
      ensures old(Recorded()) ==> (Recorded() <==> !AddedInWindow(old(currentChanges), key))
    {
      var oldValue := if key in store then Some(store[key]) else None;
      if Recorded() { RecordWrite(currentChanges, windowStart, store, key, None); }
      store := store - {key};
      currentChanges := Changes.InsertInPlace(currentChanges, key, Change(oldValue, None));
    }

    /** Ends the window: its changes go to the log under the id, and the log that has become too old goes. */
    method Commit(id: CommitId)
      modifies this`trieLog, this`currentChanges, this`windowStart
      ensures trieLog == Logged(old(trieLog), id, old(currentChanges), maxSavedTrieLogs)
      ensures currentChanges == map[] && windowStart == store && Recorded()
    {
      hide LogEntries, IdBytes, MapOf;
      var changes := currentChanges;
      currentChanges := map[];
      windowStart := store;
      if maxSavedTrieLogs != Some(0) {
        var entries := Serialize(IdBytes(id), changes);
        ghost var before := trieLog;
        assert entries[..0] == [] && before + MapOf([]) == before by { EmptyListing(before); }
        for i := 0 to |entries|
          invariant trieLog == before + MapOf(entries[..i])
          invariant currentChanges == map[] && windowStart == store
        {
          OneMoreEntry(before, entries, i);
          trieLog := trieLog[entries[i].0 := entries[i].1];
        }
        assert entries[..|entries|] == entries;
        if maxSavedTrieLogs.Some? && maxSavedTrieLogs.value <= id as nat {
          trieLog := WithoutPrefix(trieLog, IdBytes((id as nat - maxSavedTrieLogs.value) as CommitId));
        }
      }
    }

    /** The log entries under a prefix, in some order. */
    method GetByPrefix(prefix: ByteVec) returns (entries: Listing)
      ensures Lists(entries, WithPrefix(trieLog, prefix))
    {
      hide MapOf, Lists;
      entries := [];
      var found := WithPrefix(trieLog, prefix);
      var remaining := found.Keys;
      assert found - remaining == map[];
      EmptyLists();
      while remaining != {}
        invariant remaining <= found.Keys && Lists(entries, found - remaining)
      {
        var key :| key in remaining;
        ListsOneMore(entries, found - remaining, key, found[key]);
        assert (found - remaining)[key := found[key]] == found - (remaining - {key});
        entries := entries + [(key, found[key])];
        remaining := remaining - {key};
      }
      assert found - remaining == found;
    }

    /** Puts the old values of one logged commit back into a copy of the tables. Whatever order the log is listed and
        applied in, what a window recorded is undone. */
    method UndoCommit(id: CommitId, txn: Database, ghost batch: ChangeBatch, ghost before: Database)
      returns (r: Database)
      requires WithPrefix(trieLog, IdBytes(id)) == LogEntries(IdBytes(id), batch)
      requires Records(batch, before, txn)
      ensures r == before
    {
      hide LogEntries, IdBytes, MapOf, Lists, Scan, Records, Undone;
      var entries := GetByPrefix(IdBytes(id));
      UndoFromLog(IdBytes(id), batch, entries, before, txn);
      var read := Deserialize(IdBytes(id), entries);
      assert read.Success?;
      var changes := read.value;
      r := txn;
      var remaining := changes.Keys;
      NothingUndone(txn, changes);
      while remaining != {}
        invariant remaining <= changes.Keys && r == Undone(txn, changes - remaining)
      {
        var key :| key in remaining;
        UndoneStep(txn, changes, remaining, key);
        match (changes[key].oldValue, changes[key].newValue) {
          case (Some(oldValue), Some(_)) => r := r[key := oldValue];
          case (Some(oldValue), None) => r := r[key := oldValue];
          case (None, Some(_)) => r := r - {key};
          case (None, None) => assert false;
        }
        remaining := remaining - {key};
      }
      assert changes - remaining == changes;
    }
  }

  lemma {:induction false} EmptyListing(log: Log)
    ensures log + MapOf([]) == log
  {
  }

  lemma {:induction false} EmptyLists()
    ensures Lists([], map[])
  {
  }

  lemma {:induction false} OneMoreEntry(log: Log, entries: Listing, i: nat)
    requires i < |entries|
    ensures log + MapOf(entries[..i + 1]) == (log + MapOf(entries[..i]))[entries[i].0 := entries[i].1]
  {
    assert entries[..i + 1][..i] == entries[..i];
  }

  lemma {:induction false} NothingUndone(now: Database, changes: ChangeBatch)
    ensures Undone(now, changes - changes.Keys) == now
  {
  }
}
