/** Procedures made of several operations on the objects: write and read back, compare two histories, prove stale
    hashes stale, seek twice, log and undo. */
module Scenarios {
  import opened Wrappers
  import opened BitStrings
  import opened Felts
  import opened PathCodec
  import opened Nodes
  import opened Tries
  import opened Shapes
  import opened TreeState
  import opened Editing
  import opened Commits
  import opened Changes
  import opened KeyValueDb
  import opened MerkleTrie
  import ProofNodes
  import Proofs
  import HashLaws
  import opened MerkleTreesOverDb
  import opened Runs

  /** The object's keys and values as a world. */
  ghost function WorldOf(trees: MerkleTrees): World
    reads trees, trees.tree, trees.db
  {
    World(trees.tree.Abstract(), trees.db.store)
  }

  /** Nothing uncommitted. */
  ghost predicate Clean(trees: MerkleTrees)
    reads trees, trees.tree, trees.db
  {
    && trees.tree.cacheLeafModified == map[]
    && trees.tree.Root() == DenoteRoot(trees.committed)
  }

  ghost predicate OnlyIn(w: World, keys: set<Bits>, height: nat) {
    forall k: Bits :: |k| == height && View(w.st.cache, w.db, k).Some? ==> k in keys
  }

  lemma {:induction false} NothingIn(db: Database, k: Bits)
    requires db == map[]
    ensures View(map[], db, k) == None
  {
  }

  /** With nothing in view the trie is empty, and then so are the tables of a clean tree. */
  lemma {:induction false} NothingLeft(trees: MerkleTrees)
    requires trees.Valid() && Clean(trees) && OnlyIn(WorldOf(trees), {}, trees.maxHeight)
    ensures trees.tree.Root() == None && trees.db.store == map[] && trees.tree.nodes == map[]
  {
    hide Lookup, Typed, Canonical, Holds, NoLeak, View;
    var root, height := trees.tree.Root(), trees.maxHeight;
    forall k: Bits | |k| == height ensures Find(root, k) == Find(None, k) {
      assert KeyAgrees(root, map[], trees.db.store, k);
    }
    if trees.tree.shape.Some? {
      var tree := trees.tree;
      InvCanonical(trees.H, height, tree.shape.value, tree.rootNode, tree.Arena(trees.db.store), tree.nextKey);
    }
    RootUnique(root, None, height);
    TablesEmpty(root, trees.db.store, height);
  }

  /** A seek leaves keys and values as they are. */
  method SeekIn(trees: MerkleTrees, key: Bits)
    requires trees.Valid() && |key| == trees.maxHeight
    modifies trees.tree`rootNode, trees.tree`nodes, trees.tree`nextKey, trees.tree`shape
    ensures trees.Valid() && WorldOf(trees) == old(WorldOf(trees))
    ensures old(trees.tree.Hashed()) ==> trees.tree.Hashed()
  {
    hide TreeInv, FlatInv, Exact, Typed, Coherent;
    var iter := new MerkleTreeIterator(trees.tree, trees.db);
    iter.TraverseTo(null, key);
  }

  /** So does making a proof, which fails if and only if one of the keys has the wrong length. */
  method ProveIn(trees: MerkleTrees, keys: seq<Bits>) returns (r: Result<ProofNodes.MultiProof, StorageError>)
    requires trees.Valid()
    modifies trees.tree`rootNode, trees.tree`nodes, trees.tree`nextKey, trees.tree`shape
    ensures trees.Valid() && WorldOf(trees) == old(WorldOf(trees))
    ensures r.Success? <==> forall i :: 0 <= i < |keys| ==> |keys[i]| == trees.maxHeight
    ensures old(trees.tree.Hashed()) ==> trees.tree.Hashed()
    ensures r.Success? && keys != [] ==> trees.tree.RootMark().Some?
  {
    hide TreeInv, FlatInv, Exact, Typed, Coherent;
    r := Proofs.GetMultiProof(trees.tree, trees.db, keys);
  }

  /** Performs the steps on a new tree over an empty database. */
  method Perform(H: StarkHash, height: nat, steps: seq<Step>) returns (trees: MerkleTrees, ghost ws: seq<World>)
    requires 1 <= height <= 251
    ensures fresh(trees) && fresh(trees.tree) && fresh(trees.db)
    ensures trees.Valid() && trees.maxHeight == height && trees.H == H
    ensures |ws| == |steps| + 1 && IsRun(ws, steps, height) && ws[|steps|] == WorldOf(trees)
    ensures (forall i :: 0 <= i < |steps| ==> !steps[i].Write?) ==> Clean(trees) && OnlyIn(WorldOf(trees), {}, height)
  {
    hide TreeInv, FlatInv, Exact, Typed, View, Update, IsRun;
    var db := new KeyValueDB(None);
    EmptyDatabase(H, height);
    trees := new MerkleTrees(H, height, db, None);
    ws := [EMPTY];
    NoSteps(height);
    forall k: Bits ensures View(map[], db.store, k) == None { NothingIn(db.store, k); }
    for i := 0 to |steps|
      invariant fresh(trees) && fresh(trees.tree) && trees.db == db && trees.maxHeight == height && trees.H == H
      invariant trees.Valid()
      invariant IsRun(ws, steps[..i], height) && |ws| == i + 1 && ws[i] == WorldOf(trees)
      invariant (forall j :: 0 <= j < i ==> !steps[j].Write?) ==> Clean(trees) && OnlyIn(WorldOf(trees), {}, height)
    {
      ghost var before := WorldOf(trees);
      match steps[i] {
        case Write(key, value) =>
          var _ := trees.Set(key, value);
        case Commit =>
          trees.Commit();
          TypedOf(trees);
        case Seek(key) =>
          if |key| == height { SeekIn(trees, key); }
        case Prove(keys) =>
          var _ := ProveIn(trees, keys);
      }
      OneMoreStep(ws, steps[..i], steps[i], WorldOf(trees), height);
      assert steps[..i] + [steps[i]] == steps[..i + 1];
      ws := ws + [WorldOf(trees)];
    }
    assert steps[..|steps|] == steps;
  }

  lemma {:induction false} EmptyDatabase(H: StarkHash, height: nat)
    requires 1 <= height <= 251
    ensures TreeInv(H, height, None, None, Store(map[], map[], {}), 0) && FlatInv(None, map[], map[], height)
            && Exact(None, map[])
  {
  }

  lemma {:induction false} TypedOf(trees: MerkleTrees)
    requires trees.Valid()
    ensures Typed(trees.db.store, trees.maxHeight)
  {
  }

  lemma {:induction false} NoSteps(height: nat)
    ensures IsRun([EMPTY], [], height)
  {
  }

  lemma {:induction false} OneMoreStep(ws: seq<World>, steps: seq<Step>, step: Step, w: World, height: nat)
    requires IsRun(ws, steps, height) && StepTo(ws[|steps|], step, w, height)
    ensures IsRun(ws + [w], steps + [step], height)
  {
    var ws', steps' := ws + [w], steps + [step];
    forall i | 0 <= i < |steps'| ensures StepTo(ws'[i], steps'[i], ws'[i + 1], height) {
      if i < |steps| { assert StepTo(ws[i], steps[i], ws[i + 1], height); }
    }
  }

  // ----- writing and reading back -----

  /** The values that should be read back: the last one written to each key, zero for a removed one. */
  function Expected(steps: seq<Step>): map<Bits, Felt> {
    if steps == [] then map[] else
      var m := Expected(steps[..|steps| - 1]);
      match steps[|steps| - 1]
      case Write(key, value) => m[key := value]
      case _ => m
  }

  lemma {:induction false} ExpectedContents(steps: seq<Step>, height: nat, k: Bits)
    requires |k| == height
    ensures Value(Contents(steps, height), k) ==
              if k in Expected(steps) && Expected(steps)[k] != 0 then Some(Expected(steps)[k]) else None
  {
    if steps != [] { ExpectedContents(steps[..|steps| - 1], height, k); }
  }

  /** Only keys written to are ever in view. */
  lemma {:induction false} OnlyWritten(ws: seq<World>, steps: seq<Step>, height: nat, i: nat)
    requires IsRun(ws, steps, height) && 1 <= height <= 251 && i < |ws|
    ensures OnlyIn(ws[i], Expected(steps[..i]).Keys, height)
  {
    hide StateInv, Update;
    if i == 0 {
      forall k: Bits ensures View(map[], map[], k) == None { NothingIn(map[], k); }
    } else {
      OnlyWritten(ws, steps, height, i - 1);
      RunInv(ws, steps, height, i - 1);
      assert steps[..i][..i - 1] == steps[..i - 1];
      var w, w' := ws[i - 1], ws[i];
      assert StepTo(w, steps[i - 1], w', height);
      forall k: Bits | |k| == height && View(w'.st.cache, w'.db, k).Some? ensures k in Expected(steps[..i]).Keys {
        match steps[i - 1]
        case Commit =>
        case Seek(_) =>
        case Prove(_) =>
        case Write(key, value) => if |key| == height { WriteView(w, key, value, height, k); }
      }
    }
  }

  /** Takes a key out for good: sets it to zero and commits. */
  method RemoveAndCommit(trees: MerkleTrees, key: Bits, ghost keys: set<Bits>)
    requires trees.Valid() && |key| == trees.maxHeight && OnlyIn(WorldOf(trees), keys, trees.maxHeight)
    modifies trees`committed, trees.tree, trees.db`store, trees.db`currentChanges
    ensures trees.Valid() && Clean(trees) && OnlyIn(WorldOf(trees), keys - {key}, trees.maxHeight)
  {
    hide TreeInv, FlatInv, Exact, Typed, Update, View;
    ghost var before, height := WorldOf(trees), trees.maxHeight;
    WorldInv(trees);
    var _ := trees.Set(key, 0);
    ghost var after := WorldOf(trees);
    forall k: Bits | |k| == height
      ensures View(after.st.cache, after.db, k) == if k == key then None else View(before.st.cache, before.db, k)
    {
      WriteView(before, key, 0, height, k);
    }
    trees.Commit();
  }

  lemma {:induction false} WorldInv(trees: MerkleTrees)
    requires trees.Valid()
    ensures var w := WorldOf(trees); StateInv(w.st, w.db, trees.maxHeight)
  {
  }

  /** The procedure of the source's property test as a method, for any steps over any key height: perform the steps,
      read every key back, remove every key. The values read back are the expected ones whenever every step is
      regular; and whatever the steps were, both tables and the arena are empty in the end. */
  method Check(H: StarkHash, height: nat, steps: seq<Step>)
    returns (agreed: bool, trees: MerkleTrees, ghost ws: seq<World>)
    requires 1 <= height <= 251
    requires forall i :: 0 <= i < |steps| && steps[i].Write? ==> |steps[i].key| == height
    ensures fresh(trees) && fresh(trees.tree) && fresh(trees.db)
    ensures IsRun(ws, steps, height)
    ensures StepsRegular(steps, height) ==> agreed
    ensures trees.db.store == map[] && trees.tree.nodes == map[]
  {
    hide TreeInv, FlatInv, Exact, Typed, View, Update, IsRun, Regular, OnlyIn, Clean, Contents, StepsRegular;
    trees, ws := Perform(H, height, steps);
    var ckv := Expected(steps);
    ExpectedLengths(steps, height);
    RegularBySteps(ws, steps, height);
    ghost var regular := AllRegular(ws, steps, height);
    assert steps[..|steps|] == steps;
    OnlyWritten(ws, steps, height, |steps|);
    if regular { RegularRun(ws, steps, height, |steps|); }
    // read back
    agreed := true;
    var unread := ckv.Keys;
    while unread != {}
      invariant unread <= ckv.Keys && (regular ==> agreed)
      modifies {}
    {
      var k :| k in unread;
      var v := trees.Get(k);
      ExpectedContents(steps, height, k);
      if (if v.Some? then v.value else 0) != ckv[k] { agreed := false; }
      unread := unread - {k};
    }
    // remove
    var remaining := ckv.Keys;
    ExpectedNone(steps);
    while remaining != {}
      invariant fresh(trees) && fresh(trees.tree) && fresh(trees.db) && trees.maxHeight == height
      invariant trees.Valid() && remaining <= ckv.Keys && OnlyIn(WorldOf(trees), remaining, height)
      invariant remaining != ckv.Keys || ckv == map[] ==> Clean(trees)
    {
      var k :| k in remaining;
      RemoveAndCommit(trees, k, remaining);
      remaining := remaining - {k};
    }
    assert ckv.Keys == {} ==> ckv == map[];
    NothingLeft(trees);
  }

  lemma {:induction false} ExpectedLengths(steps: seq<Step>, height: nat)
    requires forall i :: 0 <= i < |steps| && steps[i].Write? ==> |steps[i].key| == height
    ensures forall k :: k in Expected(steps) ==> |k| == height
  {
    if steps != [] {
      var rest := steps[..|steps| - 1];
      assert forall i :: 0 <= i < |rest| ==> rest[i] == steps[i];
      ExpectedLengths(rest, height);
    }
  }

  lemma {:induction false} ExpectedNone(steps: seq<Step>)
    ensures Expected(steps) == map[] ==> forall i :: 0 <= i < |steps| ==> !steps[i].Write?
  {
    if steps != [] {
      var rest, last := steps[..|steps| - 1], steps[|steps| - 1];
      ExpectedNone(rest);
      assert last.Write? ==> last.key in Expected(steps);
      assert forall i :: 0 <= i < |rest| ==> rest[i] == steps[i];
    }
  }

  // ----- two histories -----

  /** The root hash after the steps and a commit. */
  method CommittedRootHash(H: StarkHash, height: nat, steps: seq<Step>) returns (hash: Felt, ghost ws: seq<World>)
    requires 1 <= height <= 251
    ensures IsRun(ws, steps, height) && hash == RootHash(H, ws[|steps|].st.root)
    ensures StepsRegular(steps, height) ==>
              hash == HashLaws.Commit(H, (k: Bits) => Value(Contents(steps, height), k), [], height).Hash(H)
  {
    hide TreeInv, FlatInv, Exact, Typed, View, Update, IsRun, StepsRegular, Contents, HashLaws.Commit;
    var trees;
    trees, ws := Perform(H, height, steps);
    trees.Commit();
    var r := trees.tree.RootHash(trees.db);
    assert r.Success?;
    hash := r.value;
    if StepsRegular(steps, height) { RunCommitment(H, ws, steps, height); }
  }

  /** Two histories that amount to the same content commit to the same root hash, if every step of both is regular. */
  method CompareHistories(H: StarkHash, height: nat, steps: seq<Step>, steps': seq<Step>)
    returns (same: bool, ghost ws: seq<World>, ghost ws': seq<World>)
    requires 1 <= height <= 251
    ensures IsRun(ws, steps, height) && IsRun(ws', steps', height)
    ensures StepsRegular(steps, height) && StepsRegular(steps', height) ==>
              Contents(steps, height) == Contents(steps', height) ==> same
  {
    hide StepsRegular, Contents, RootHash, StepTo;
    var hash, hash';
    hash, ws := CommittedRootHash(H, height, steps);
    hash', ws' := CommittedRootHash(H, height, steps');
    same := hash == hash';
    if StepsRegular(steps, height) && StepsRegular(steps', height)
      && Contents(steps, height) == Contents(steps', height) {
      HistoryIndependence(H, ws, steps, ws', steps', height);
    }
  }

  // ----- stale hashes -----

  /** The first key set on an empty tree makes the trie one stem. */
  lemma {:induction false} FirstSet(key: Bits, v: Felt)
    requires key != [] && v != 0
    ensures var st := Update(EMPTY.st, map[], key, v);
            st.root == Some(Stem(key, Leaf(v))) && View(st.cache, map[], key) == Some(v)
  {
    assert FlatGet(map[], key) == None;
    assert RootInsert(None, key, v) == Stem(key, Leaf(v));
  }

  /** Another value for the key of a stem changes its leaf and its hash; the key passes the stem alone. */
  lemma {:induction false} StemSet(H: StarkHash, key: Bits, v: Felt, u: Felt)
    requires key != [] && HashEdgeNode(H, key, v) != HashEdgeNode(H, key, u)
    ensures var t, t' := Stem(key, Leaf(v)), Stem(key, Leaf(u));
            && TrieInsert(t, key, u) == t' && PassedBits(t, key) == |key|
            && Tries.Hash(H, t) != Tries.Hash(H, t')
  {
    assert key[|key|..] == [];
    assert CommonLen(key, key) == |key|;
    assert Next(Stem(key, Leaf(v)), key) == Leaf(v) && PassedBits(Leaf(v), []) == 0;
  }

  /** So a second value set after a commit makes the committed hash wrong. */
  lemma {:induction false} SecondSet(H: StarkHash, db: Database, key: Bits, v: Felt, u: Felt)
    requires key != [] && u != 0 && HashEdgeNode(H, key, v) != HashEdgeNode(H, key, u)
             && View(map[], db, key) == Some(v)
    ensures var st, t' := State(Some(Stem(key, Leaf(v))), map[]), Stem(key, Leaf(u));
            && Update(st, db, key, u).root == Some(t') && EditDepth(st, db, key, u) == |key|
            && RootHash(H, st.root) != RootHash(H, Some(t'))
  {
    assert FlatGet(db, key) == Some(v) && v != u;
    StemSet(H, key, v, u);
    hide FlatGet, TrieInsert, PassedBits, Tries.Hash, View;
  }

  /** A commit and then one write: the root hash is the committed one still whenever a node on the key's way survives
      the write, the root being one; it is right or refused when none does. */
  method SetAfterCommit(trees: MerkleTrees, key: Bits, value: Felt)
    returns (committed: Felt, hash: Result<Felt, StorageError>, ghost depth: nat)
    requires trees.Valid() && |key| == trees.maxHeight
    modifies trees`committed, trees.tree, trees.db`store, trees.db`currentChanges
    ensures trees.Valid()
    ensures committed == RootHash(trees.H, old(trees.tree.Root()))
    ensures trees.tree.Abstract() == Update(State(old(trees.tree.Root()), map[]), trees.db.store, key, value)
    ensures depth == EditDepth(State(old(trees.tree.Root()), map[]), trees.db.store, key, value)
    ensures forall k :: View(map[], trees.db.store, k) ==
              View(old(trees.tree.cacheLeafModified), old(trees.db.store), k)
    ensures depth > 0 ==>
              hash == Success(committed) && (trees.tree.Hashed() ==> committed == RootHash(trees.H, trees.tree.Root()))
    ensures depth == 0 ==>
              trees.tree.Hashed() && (hash.Success? ==> hash.value == RootHash(trees.H, trees.tree.Root()))
  {
    hide TreeInv, FlatInv, Exact, Typed, EditDepth, Update, View, RootHash;
    trees.Commit();
    var first := trees.tree.RootHash(trees.db);
    assert first.Success?;
    committed := first.value;
    depth := EditDepth(trees.tree.Abstract(), trees.db.store, key, value);
    var _ := trees.Set(key, value);
    hash := trees.tree.RootHash(trees.db);
  }

  /** One key is set and committed, then set to another value: the tree has the new value, and the root hash it returns
      is the committed one, the hash of the old trie. */
  method StaleRootHash(H: StarkHash, key: Bits, v: Felt, u: Felt) returns (hash: Felt, trees: MerkleTrees)
    requires 1 <= |key| <= 251 && v != 0 && u != 0 && HashEdgeNode(H, key, v) != HashEdgeNode(H, key, u)
    ensures trees.Valid() && trees.H == H && trees.tree.Root() == Some(Stem(key, Leaf(u)))
    ensures hash == RootHash(H, Some(Stem(key, Leaf(v)))) != RootHash(H, trees.tree.Root())
    ensures !trees.tree.Hashed()
  {
    hide TreeInv, FlatInv, Exact, Typed, EditDepth, Update, View, RootHash;
    var db := new KeyValueDB(None);
    EmptyDatabase(H, |key|);
    trees := new MerkleTrees(H, |key|, db, None);
    FirstSet(key, v);
    var _ := trees.Set(key, v);
    ghost var depth;
    var committed, r;
    committed, r, depth := SetAfterCommit(trees, key, u);
    SecondSet(H, db.store, key, v, u);
    hash := r.value;
  }

  /** Right hashes, a proof and then one write, committed or not: making the proof has filled in the hash of the root,
      so the root hash is the old one whenever a node on the key's way survives the write. */
  method SetAfterProof(trees: MerkleTrees, keys: seq<Bits>, key: Bits, value: Felt)
    returns (hash: Result<Felt, StorageError>, ghost depth: nat)
    requires trees.Valid() && |key| == trees.maxHeight && trees.tree.Hashed()
    requires keys != [] && forall i :: 0 <= i < |keys| ==> |keys[i]| == trees.maxHeight
    modifies trees.tree
    ensures trees.Valid()
    ensures trees.tree.Abstract() == Update(old(trees.tree.Abstract()), trees.db.store, key, value)
    ensures depth == EditDepth(old(trees.tree.Abstract()), trees.db.store, key, value)
    ensures depth > 0 ==> hash == Success(RootHash(trees.H, old(trees.tree.Root())))
    ensures trees.tree.Hashed() && hash.Success? ==> hash.value == RootHash(trees.H, trees.tree.Root())
    ensures depth == 0 ==> trees.tree.Hashed()
  {
    hide TreeInv, FlatInv, Exact, Typed, EditDepth, Update, View, RootHash, TopHash;
    var proof := ProveIn(trees, keys);
    var committed := trees.tree.RootHash(trees.db);
    assert committed.Success?;
    depth := EditDepth(trees.tree.Abstract(), trees.db.store, key, value);
    var _ := trees.Set(key, value);
    hash := trees.tree.RootHash(trees.db);
  }

  const FIRST: Bits := [false, false]
  const OTHER: Bits := [true, false]
  const SECOND: Bits := [false, true]

  /** Two keys on the two sides of the root, and a third beside the first. */
  function TwoKeys(v: Felt, w: Felt): Trie {
    Branch(Stem([false], Leaf(v)), Stem([false], Leaf(w)))
  }

  function ThreeKeys(v: Felt, w: Felt, u: Felt): Trie {
    Branch(Branch(Leaf(v), Leaf(u)), Stem([false], Leaf(w)))
  }

  lemma {:induction false} TwoSet(v: Felt, w: Felt)
    requires v != 0 && w != 0
    ensures var st := Update(Update(EMPTY.st, map[], FIRST, v), map[], OTHER, w);
            && st.root == Some(TwoKeys(v, w)) && BitsliceToBytes(SECOND) !in st.cache
  {
    assert PathOf(BitsliceToBytes(FIRST)) == FIRST && PathOf(BitsliceToBytes(OTHER)) == OTHER;
    assert PathOf(BitsliceToBytes(SECOND)) == SECOND;
    hide BitsliceToBytes, PathOf;
    assert RootInsert(None, FIRST, v) == Stem(FIRST, Leaf(v));
    assert CommonLen(FIRST, OTHER) == 0;
    assert OTHER[1..] == [false] && FIRST[1..] == [false];
    assert SplitStem(FIRST, Leaf(v), OTHER, w, 0) == TwoKeys(v, w);
  }

  lemma {:induction false} ThirdSet(st: State, v: Felt, w: Felt, u: Felt)
    requires u != 0 && st.root == Some(TwoKeys(v, w)) && BitsliceToBytes(SECOND) !in st.cache
    ensures Update(st, map[], SECOND, u).root == Some(ThreeKeys(v, w, u)) && EditDepth(st, map[], SECOND, u) == 1
  {
    hide BitsliceToBytes;
    assert FlatGet(map[], SECOND) == None;
    assert SECOND[1..] == [true] && CommonLen([false], [true]) == 0;
    assert SplitStem([false], Leaf(v), [true], u, 0) == Branch(Leaf(v), Leaf(u));
    assert TrieInsert(Stem([false], Leaf(v)), [true], u) == Branch(Leaf(v), Leaf(u));
    assert PassedBits(Stem([false], Leaf(v)), [true]) == 0;
  }

  /** No commit at all, three keys set and a proof made before the third: the root hash is that of the first two. */
  method StaleByProof(H: StarkHash, v: Felt, w: Felt, u: Felt) returns (hash: Felt, trees: MerkleTrees)
    requires v != 0 && w != 0 && u != 0 && Tries.Hash(H, TwoKeys(v, w)) != Tries.Hash(H, ThreeKeys(v, w, u))
    ensures trees.Valid() && trees.H == H && trees.tree.Root() == Some(ThreeKeys(v, w, u))
    ensures hash == RootHash(H, Some(TwoKeys(v, w))) != RootHash(H, trees.tree.Root())
    ensures trees.db.store == map[] && !trees.tree.Hashed()
  {
    hide TreeInv, FlatInv, Exact, Typed, EditDepth, Update, View, Tries.Hash, TwoKeys, ThreeKeys, HashesKept, PathOf,
         BitsliceToBytes, Coherent;
    var db := new KeyValueDB(None);
    EmptyDatabase(H, 2);
    trees := new MerkleTrees(H, 2, db, None);
    var _ := trees.Set(FIRST, v);
    var _ := trees.Set(OTHER, w);
    TwoSet(v, w);
    ThirdSet(trees.tree.Abstract(), v, w, u);
    trees.tree.UnhashedIsHashed(db.store);
    var r;
    ghost var depth;
    r, depth := SetAfterProof(trees, [FIRST], SECOND, u);
    hash := r.value;
  }

  // ----- two seeks -----

  /** One iterator goes through any keys and then to the last one, another goes to the last one directly: they end at
      the same place with the same record of the way. */
  method SeekBothWays(tree: MerkleTree, db: KeyValueDB, keys: seq<Bits>, key: Bits)
    returns (resumed: MerkleTreeIterator, direct: MerkleTreeIterator)
    requires tree.Sound(db.store) && |key| == tree.maxHeight
    requires forall i :: 0 <= i < |keys| ==> |keys[i]| == tree.maxHeight
    modifies tree`rootNode, tree`nodes, tree`nextKey, tree`shape
    ensures tree.Sound(db.store) && tree.Root() == old(tree.Root())
    ensures resumed.currentPath == direct.currentPath
    ensures resumed.currentNodesHeights == direct.currentNodesHeights
    ensures resumed.leafHash == direct.leafHash == Find(tree.Root(), key)
  {
    hide TreeInv, Typed, IsEnd, At, TraceTo, EndPath, Lookup, Denote;
    resumed := new MerkleTreeIterator(tree, db);
    for j := 0 to |keys|
      invariant tree.Sound(db.store) && tree.Root() == old(tree.Root())
      invariant resumed.AtRest() && (resumed.last.Some? ==> |resumed.last.value| == tree.maxHeight)
    {
      resumed.TraverseTo(null, keys[j]);
    }
    resumed.TraverseTo(null, key);
    direct := new MerkleTreeIterator(tree, db);
    direct.TraverseTo(null, key);
    SeeksAgree(resumed, direct);
  }

  // ----- commits under ids -----

  type Window = seq<(Bits, Felt)>

  /** The databases between the commits of a session, what each commit recorded, and the log they left. */
  ghost predicate IsSession(stores: seq<Database>, batches: seq<ChangeBatch>, log: Log, maxSaved: Option<nat>) {
    && |stores| == |batches| + 1 && |batches| < 0x1_0000_0000_0000_0000
    && (forall i :: 0 <= i < |batches| ==>
          Records(batches[i], stores[i], stores[i + 1]) && PrefixFree(Effective(batches[i]).Keys))
    && log == LogAfter(batches, maxSaved)
  }

  lemma {:induction false} OneMoreWindow(stores: seq<Database>, batches: seq<ChangeBatch>, log: Log,
          maxSaved: Option<nat>, batch: ChangeBatch, store: Database, id: CommitId)
    requires IsSession(stores, batches, log, maxSaved) && id as nat == |batches|
             && |batches| + 1 < 0x1_0000_0000_0000_0000
    requires Records(batch, stores[|batches|], store) && PrefixFree(Effective(batch).Keys)
    ensures IsSession(stores + [store], batches + [batch], Logged(log, id, batch, maxSaved), maxSaved)
  {
    hide Records, PrefixFree, Effective, Logged;
    var stores', batches' := stores + [store], batches + [batch];
    assert batches'[..|batches|] == batches;
    forall i | 0 <= i < |batches'|
      ensures Records(batches'[i], stores'[i], stores'[i + 1]) && PrefixFree(Effective(batches'[i]).Keys)
    {
      if i < |batches| { assert Records(batches[i], stores[i], stores[i + 1]); }
    }
  }

  /** Windows of writes committed under the ids 0, 1, 2 and so on. */
  method RunSession(H: StarkHash, height: nat, maxSaved: Option<nat>, windows: seq<Window>)
    returns (trees: MerkleTrees, ghost stores: seq<Database>, ghost batches: seq<ChangeBatch>)
    requires 1 <= height <= 251 && |windows| < 0x1_0000_0000_0000_0000
    ensures fresh(trees) && fresh(trees.tree) && fresh(trees.db) && trees.Valid()
    ensures |batches| == |windows| && IsSession(stores, batches, trees.db.trieLog, maxSaved)
    ensures stores[0] == map[] && stores[|windows|] == trees.db.store
  {
    hide TreeInv, FlatInv, Exact, View, Update, IsSession, Records, PrefixFree, Effective, Logged, LogEntries,
         WithPrefix, IdBytes;
    var db := new KeyValueDB(maxSaved);
    EmptyDatabase(H, height);
    trees := new MerkleTrees(H, height, db, None);
    stores, batches := [map[]], [];
    NoWindows(maxSaved);
    for i := 0 to |windows|
      invariant fresh(trees) && fresh(trees.tree) && trees.db == db && fresh(db) && db.maxSavedTrieLogs == maxSaved
      invariant trees.Valid() && db.currentChanges == map[] && db.Recorded()
      invariant |batches| == i && |stores| == i + 1 && stores[0] == map[] && stores[i] == db.store
      invariant IsSession(stores, batches, db.trieLog, maxSaved)
    {
      WriteAll(trees, windows[i]);
      ghost var log := db.trieLog;
      var id := i as CommitId;
      ghost var batch := trees.CommitAs(id);
      OneMoreWindow(stores, batches, log, maxSaved, batch, db.store, id);
      stores, batches := stores + [db.store], batches + [batch];
    }
  }

  lemma {:induction false} NoWindows(maxSaved: Option<nat>)
    ensures IsSession([map[]], [], map[], maxSaved)
  {
  }

  method WriteAll(trees: MerkleTrees, writes: Window)
    requires trees.Valid()
    modifies trees.tree
    ensures trees.Valid()
  {
    hide TreeInv, FlatInv, Exact, View, Update;
    for i := 0 to |writes|
      invariant trees.Valid()
    {
      var _ := trees.Set(writes[i].0, writes[i].1);
    }
  }

  /** The undo of one commit, repeated by this method newest first for as many commits as the limit on logs keeps, gives
      the tables of that long ago. */
  method Rewind(H: StarkHash, height: nat, maxSaved: Option<nat>, windows: seq<Window>, back: nat)
    returns (txn: Database, ghost stores: seq<Database>, ghost batches: seq<ChangeBatch>, trees: MerkleTrees)
    requires 1 <= height <= 251 && |windows| < 0x1_0000_0000_0000_0000
    requires back <= |windows| && (maxSaved.Some? ==> back <= maxSaved.value)
    ensures |batches| == |windows| && IsSession(stores, batches, trees.db.trieLog, maxSaved)
            && stores[|windows|] == trees.db.store
    ensures txn == stores[|windows| - back]
  {
    hide Records, PrefixFree, Effective, LogAfter, LogEntries, WithPrefix, IdBytes;
    trees, stores, batches := RunSession(H, height, maxSaved, windows);
    txn := trees.db.store;
    var n := |windows|;
    while n > |windows| - back
      invariant |windows| - back <= n <= |windows| && txn == stores[n]
      modifies {}
    {
      n := n - 1;
      var id := n as CommitId;
      Retention(batches, maxSaved, id);
      assert Records(batches[n], stores[n], stores[n + 1]);
      txn := trees.db.UndoCommit(id, txn, batches[n], stores[n]);
    }
  }
}
