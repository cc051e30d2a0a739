/** The tree together with its database: the commit pass that turns tree updates into writes and recorded changes. */
module MerkleTreesOverDb {
  import opened Wrappers
  import opened BitStrings
  import opened Felts
  import opened PathCodec
  import opened Nodes
  import opened Shapes
  import opened TreeState
  import opened Editing
  import opened Changes
  import opened KeyValueDb
  import opened Commits
  import opened MerkleTrie

  lemma {:induction false} AppliedStep(db: Database, updates: Updates, remaining: set<TrieKey>, k: TrieKey)
    requires k in remaining && remaining <= updates.Keys
    ensures var value := if updates[k].Insert? then Some(updates[k].value) else None;
            Write(Applied(db, updates - remaining), k, value) == Applied(db, updates - (remaining - {k}))
  {
  }

  lemma {:induction false} NothingApplied(db: Database, updates: Updates)
    ensures Applied(db, updates - updates.Keys) == db
  {
  }

  /** A change between two databases of the tree is to an encoded path, so no changed key is a proper prefix of
      another. */
  lemma {:induction false} TreeChangesPrefixFree(batch: ChangeBatch, before: Database, now: Database, height: nat)
    requires Records(batch, before, now) && Typed(before, height) && Typed(now, height) && 0 < height
    ensures PrefixFree(Effective(batch).Keys)
  {
    hide PathOf, EncodePath, PrefixFree;
    forall k | k in Effective(batch) ensures k.bytes == EncodePath(PathOf(k.bytes)) {
      if k in before { TypedAt(before, height, k); } else { TypedAt(now, height, k); }
      if k.FlatEntry? { BitsliceMatchesPath(PathOf(k.bytes)); }
    }
    TreeKeysPrefixFree(Effective(batch).Keys);
  }

  class MerkleTrees {
    const H: StarkHash
    const maxHeight: nat
    const db: KeyValueDB
    /** The tree of the one identifier. */
    var tree: MerkleTree
    /** What the database alone stands for. */
    ghost var committed: Option<Shape>

    ghost predicate Closed()
      reads this, db
    {
      && TreeInv(H, maxHeight, committed, None, Store(map[], db.store, {}), 0)
      && FlatInv(DenoteRoot(committed), map[], db.store, maxHeight)
    }

    ghost predicate Valid()
      reads this, db, tree
    {
      && tree.H == H && tree.maxHeight == maxHeight && tree.Valid(db.store)
      && Closed() && Exact(DenoteRoot(committed), db.store)
    }

    /** Over a database that stands for the given shape; for a new one that is no shape at all. */
    constructor (H: StarkHash, maxHeight: nat, db: KeyValueDB, ghost stored: Option<Shape>)
      requires TreeInv(H, maxHeight, stored, None, Store(map[], db.store, {}), 0)
      requires FlatInv(DenoteRoot(stored), map[], db.store, maxHeight) && Exact(DenoteRoot(stored), db.store)
      ensures this.H == H && this.maxHeight == maxHeight && this.db == db && committed == stored
      ensures Valid() && tree.Root() == DenoteRoot(stored) && tree.cacheLeafModified == map[] && tree.Hashed()
      ensures fresh(tree) && tree.rootNode.None? && tree.nodes == map[]
    {
      this.H, this.maxHeight, this.db := H, maxHeight, db;
      tree := new MerkleTree(H, maxHeight, db.store, stored);
      committed := stored;
    }

    method Set(key: Bits, value: Felt) returns (r: Result<(), StorageError>)
      requires Valid()
      modifies tree
      ensures Valid()
      ensures |key| != maxHeight ==>
                r == Failure(KeyLength(maxHeight, |key|)) && tree.Abstract() == old(tree.Abstract())
      ensures |key| == maxHeight ==> r.Success? && tree.Abstract() == Update(old(tree.Abstract()), db.store, key, value)
      ensures old(tree.Unhashed(db.store)) ==> tree.Unhashed(db.store)
      ensures |key| == maxHeight && old(tree.Hashed()) ==>
                var d := EditDepth(old(tree.Abstract()), db.store, key, value);
                && HashesKept(H, old(tree.Root()), tree.Root(), key, d, old(tree.PassesUnmarked(key, d)), tree.Hashed())
                && (d > 0 ==> tree.RootMark() == old(tree.RootMark()))
                && (ClashFree(H, old(tree.Root()), tree.Root()) ==>
                      (tree.Hashed() <==> old(tree.PassesUnmarked(key, d)) || tree.Root() == old(tree.Root())))
    {
      hide TreeInv, FlatInv, Exact, Typed, HashesKept, EditDepth, ClashFree, Update, Coherent, Denote;
      ghost var before, hashed := tree.Abstract(), tree.Hashed();
      tree.StateOf(db.store);
      r := tree.Set(db, key, value);
      if |key| == maxHeight && hashed && ClashFree(H, before.root, tree.Root()) {
        KeptExactly(H, before, db.store, maxHeight, key, value,
          old(tree.PassesUnmarked(key, EditDepth(before, db.store, key, value))), tree.Hashed());
      }
    }

    method Get(key: Bits) returns (r: Option<Felt>)
      requires Valid()
      ensures r == View(tree.cacheLeafModified, db.store, key)
    {
      r := tree.Get(db, key);
    }

    /** Applies the updates one by one, in any order, recording every change. */
    method ApplyUpdates(updates: Updates)
      modifies db`store, db`currentChanges
      ensures db.store == Applied(old(db.store), updates)
      ensures old(db.currentChanges) == map[] && old(db.Recorded()) ==> db.Recorded()
    {
      hide Applied, Records, Changes.InsertInPlace;
      var remaining := updates.Keys;
      NothingApplied(db.store, updates);
      while remaining != {}
        invariant remaining <= updates.Keys
        invariant db.store == Applied(old(db.store), updates - remaining)
        invariant old(db.currentChanges) == map[] && old(db.Recorded()) ==>
                    db.Recorded() && db.currentChanges.Keys == updates.Keys - remaining
      {
        var key :| key in remaining;
        AppliedStep(old(db.store), updates, remaining, key);
        RecordedKeys(db.currentChanges, key);
        match updates[key] {
          case Insert(value) => db.Insert(key, value);
          case Remove => db.Remove(key);
        }
        remaining := remaining - {key};
      }
      assert updates - remaining == updates;
    }

    lemma {:induction false} RecordedKeys(batch: ChangeBatch, key: TrieKey)
      ensures forall change :: Changes.InsertInPlace(batch, key, change).Keys == batch.Keys + {key}
    {
    }

    /** Writes the tree's updates to the database. The trie and everything in view stay what they were; afterwards the
        database alone stands for them, and its trie table has exactly the nodes of the trie. */
    method Commit()
      requires Valid()
      modifies this`committed, tree, db`store, db`currentChanges
      ensures Valid() && tree.Root() == old(tree.Root()) == DenoteRoot(committed) && tree.cacheLeafModified == map[]
      ensures tree.rootNode.None? && tree.nodes == map[] && tree.Hashed()
      ensures Exact(tree.Root(), db.store)
      ensures forall key :: View(map[], db.store, key) == View(old(tree.cacheLeafModified), old(db.store), key)
      ensures old(db.currentChanges) == map[] && old(db.Recorded()) ==> db.Recorded()
      ensures Typed(db.store, maxHeight) && 1 <= maxHeight
    {
      hide FlatInv, Exact, Typed, View, AllUpdates, Applied, Records, Coherent;
      var updates := tree.GetUpdates(db.store);
      ApplyUpdates(updates);
      committed := tree.shape;
      Rekeyed(H, maxHeight, committed, Store(map[], db.store, {}), tree.nextKey);
    }

    /** A whole commit: the updates are written and the window's changes logged under the id. Undoing that log takes the
        tables back to where the window began, and a sorted listing of it reads back as exactly what changed. */
    method CommitAs(id: CommitId) returns (ghost batch: ChangeBatch)
      requires Valid() && db.currentChanges == map[] && db.Recorded()
      modifies this`committed, tree, db
      ensures Valid() && tree.Root() == old(tree.Root()) == DenoteRoot(committed) && tree.cacheLeafModified == map[]
      ensures Exact(tree.Root(), db.store)
      ensures forall key :: View(map[], db.store, key) == View(old(tree.cacheLeafModified), old(db.store), key)
      ensures db.currentChanges == map[] && db.Recorded()
      ensures Records(batch, old(db.store), db.store) && PrefixFree(Effective(batch).Keys)
      ensures db.trieLog == Logged(old(db.trieLog), id, batch, db.maxSavedTrieLogs)
      ensures db.maxSavedTrieLogs != Some(0) && WithPrefix(old(db.trieLog), IdBytes(id)) == map[] ==>
                WithPrefix(db.trieLog, IdBytes(id)) == LogEntries(IdBytes(id), batch)
    {
      hide TreeInv, FlatInv, Exact, View, Effective, LogEntries, IdBytes, WithPrefix, Logged;
      RecordsStart(db.currentChanges, db.windowStart, db.store);
      Commit();
      batch := db.currentChanges;
      TreeChangesPrefixFree(batch, old(db.store), db.store, maxHeight);
      if db.maxSavedTrieLogs != Some(0) {
        LoggedUnder(db.trieLog, id, batch, db.maxSavedTrieLogs, id);
        assert map[] + LogEntries(IdBytes(id), batch) == LogEntries(IdBytes(id), batch);
      }
      db.Commit(id);
    }

    /** Forgets everything that was not committed. */
    method ResetToLastCommit()
      requires Valid()
      modifies this`tree
      ensures Valid() && fresh(tree) && tree.Root() == DenoteRoot(committed) && tree.cacheLeafModified == map[]
              && tree.Hashed()
    {
      hide TreeInv, FlatInv, Exact, Typed;
      tree := new MerkleTree(H, maxHeight, db.store, committed);
    }
  }

  /** A window that has recorded nothing began with what there is now. */
  lemma {:induction false} RecordsStart(batch: ChangeBatch, before: Database, now: Database)
    requires Records(batch, before, now) && batch == map[]
    ensures before == now
  {
    forall k: TrieKey ensures Fetch(before, k) == Fetch(now, k) { assert k !in batch; }
    SameFetches(before, now);
  }

  lemma {:induction false} Rekeyed(H: StarkHash, height: nat, a: Option<Shape>, s: Store, nextKey: ArenaKey)
    requires TreeInv(H, height, a, None, s, nextKey)
    ensures TreeInv(H, height, a, None, s, 0)
  {
  }
}
