/** The tree and its seek iterator. */
module MerkleTrie {
  import opened Wrappers
  import opened BitStrings
  import opened Felts
  import opened PathCodec
  import opened Nodes
  import opened Tries
  import opened Shapes
  import opened TreeState
  import opened Editing
  import opened Commits
  import opened KeyValueDb
  import opened ProofNodes

  datatype StorageError = KeyLength(expected: nat, got: nat) | TrieError(message: string)

  datatype NodeOrFelt = NodeChild(node: Node) | FeltChild(felt: Felt)

  class MerkleTree {
    /** The hash function H of the source's type parameter. */
    const H: StarkHash
    const maxHeight: nat
    /** None means the root has not been loaded yet. */
    var rootNode: Option<RootHandle>
    var nodes: NodeMap
    /** The next unused arena key: slot map keys are never handed out twice. */
    var nextKey: ArenaKey
    var deathRow: set<TrieKey>
    var cacheLeafModified: Overlay
    ghost var shape: Option<Shape>

    ghost function Arena(db: Database): Store
      reads this
    {
      Store(nodes, db, deathRow)
    }

    /** The trie that arena, database and death row stand for together. */
    ghost function Root(): Option<Trie>
      reads this
    {
      DenoteRoot(shape)
    }

    /** The trie together with the overlay. */
    ghost function Abstract(): State
      reads this
    {
      State(Root(), cacheLeafModified)
    }

    /** Everything but the overlay is consistent. */
    ghost predicate Sound(db: Database)
      reads this
    {
      && TreeInv(H, maxHeight, shape, rootNode, Arena(db), nextKey) && Typed(db, maxHeight)
      && forall e :: e in deathRow ==> e.NodeEntry?
    }

    ghost predicate Valid(db: Database)
      reads this
    {
      Sound(db) && FlatInv(Root(), cacheLeafModified, db, maxHeight)
    }

    /** A tree over a database that stands for the given shape: nothing is loaded yet. */
    constructor (H: StarkHash, maxHeight: nat, ghost db: Database, ghost stored: Option<Shape>)
      requires TreeInv(H, maxHeight, stored, None, Store(map[], db, {}), 0)
               && FlatInv(DenoteRoot(stored), map[], db, maxHeight)
      ensures this.H == H && this.maxHeight == maxHeight
      ensures Root() == DenoteRoot(stored) && cacheLeafModified == map[]
      ensures Valid(db) && Hashed() && rootNode.None? && nodes == map[]
    {
      this.H, this.maxHeight := H, maxHeight;
      rootNode := None;
      nodes := map[];
      nextKey := 0;
      deathRow := {};
      cacheLeafModified := map[];
      shape := stored;
      new;
      if stored.Some? { DiskCoherent(H, stored.value, nodes); }
    }

    // ----- the arena -----

    method InsertNode(node: Node) returns (key: ArenaKey)
      modifies this`nodes, this`nextKey
      ensures key == old(nextKey) && nextKey == key + 1 && nodes == old(nodes)[key := node]
    {
      key := nextKey;
      nodes := nodes[key := node];
      nextKey := nextKey + 1;
    }

    // ----- loading -----

    method LoadDbNode(db: KeyValueDB, key: TrieKey) returns (r: Result<Option<ArenaKey>, StorageError>)
      modifies this`nodes, this`nextKey
      ensures key in deathRow || key !in db.store ==> r == Success(None)
      ensures key !in deathRow && key in db.store ==>
                r == if db.store[key].NodeValue? then Success(Some(old(nextKey)))
                     else Failure(TrieError("Couldn't decode node"))
      ensures r.Success? && r.value.Some? ==>
                nodes == old(nodes)[old(nextKey) := db.store[key].node] && nextKey == old(nextKey) + 1
      ensures !(r.Success? && r.value.Some?) ==> nodes == old(nodes) && nextKey == old(nextKey)
    {
      if key in deathRow {
        return Success(None);
      }
      if key !in db.store {
        return Success(None);
      }
      match db.store[key] {
        case NodeValue(node) =>
          var id := InsertNode(node);
          return Success(Some(id));
        case FeltValue(_) =>
          return Failure(TrieError("Couldn't decode node"));
      }
    }

    /** Loads the root from the database if that has not happened yet; None is the empty tree. */
    method LoadRootNode(db: KeyValueDB) returns (r: Option<ArenaKey>)
      requires Sound(db.store)
      modifies this`rootNode, this`nodes, this`nextKey, this`shape
      ensures Sound(db.store) && Root() == old(Root()) && (r.Some? <==> shape.Some?)
      ensures rootNode == Some(if r.Some? then RootHandle.Loaded(r.value) else RootHandle.Empty)
      ensures old(rootNode).Some? ==> nodes == old(nodes) && shape == old(shape) && rootNode == old(rootNode)
      ensures nodes.Keys == old(nodes).Keys + if r.Some? then {r.value} else {}
      ensures old(Hashed()) ==> Hashed()
      ensures old(Unhashed(db.store)) ==> Unhashed(db.store)
      ensures forall key, d :: PassesUnmarked(key, d) <==> old(PassesUnmarked(key, d))
      ensures RootMark() == old(RootMark())
    {
      match rootNode {
        case Some(Loaded(id)) => return Some(id);
        case Some(Empty) => return None;
        case None =>
          ghost var before, key := Arena(db.store), nextKey;
          UnloadedRoot(H, maxHeight, shape, before, key);
          var loaded := LoadDbNode(db, NodeKey([]));
          assert loaded.Success?;
          match loaded.value {
            case Some(id) =>
              rootNode := Some(RootHandle.Loaded(id));
              LoadRootInv(H, maxHeight, shape.value, before, key, nodes[id], Arena(db.store));
              LoadRootMarks(H, maxHeight, shape.value, before, key, nodes[id], nodes);
              shape := Some(Relocate(shape.value, id));
              return Some(id);
            case None =>
              rootNode := Some(RootHandle.Empty);
              return None;
          }
      }
    }

    /** Cached hashes, where present, are right. */
    ghost predicate Hashed()
      reads this
    {
      shape.Some? ==> Coherent(H, shape.value, nodes)
    }

    /** Every node the key passes before bit d is loaded and has no hash cached. */
    ghost predicate PassesUnmarked(key: Bits, d: nat)
      reads this
    {
      shape.Some? ==> Unmarked(shape.value, key, d, nodes)
    }

    /** The hash that the root is taken to have: the cached or stored one, or zero for no root. */
    ghost function RootMark(): Option<Felt>
      reads this
    {
      if shape.None? then Some(0) else TopHash(H, shape.value, nodes)
    }

    /** The key's walk is loaded to its end. */
    ghost predicate HasWalked(key: Bits)
      reads this
    {
      shape.Some? && Walked(shape.value, key)
    }

    /** A walk that is loaded starts at a loaded root. */
    lemma {:induction false} WalkedRoot(db: Database, key: Bits)
      requires Sound(db)
      ensures HasWalked(key) ==> rootNode.Some?
    {
      if HasWalked(key) {
        var n :| IsEnd(shape.value, key, n);
        EndHasRoot(H, maxHeight, shape.value, rootNode, Arena(db), nextKey, key, n);
      }
    }

    /** No node has a hash cached, and there is none in the database to be loaded: the tree before its first commit and
        its first proof. */
    ghost predicate Unhashed(db: Database)
      reads this
    {
      (forall k :: k in nodes ==> nodes[k].hash.None?) && forall e :: e in db ==> !e.NodeEntry?
    }

    lemma {:induction false} UnhashedIsHashed(db: Database)
      requires Sound(db) && Unhashed(db)
      ensures Hashed()
    {
      if shape.Some? { NoneCached(H, shape.value, nodes); }
    }

    method LoadNodeHandle(db: KeyValueDB, handle: NodeHandle, path: Bits) returns (r: Result<ArenaKey, StorageError>)
      modifies this`nodes, this`nextKey
      ensures handle.InMemory? ==> r == Success(handle.key) && nodes == old(nodes) && nextKey == old(nextKey)
      ensures handle.Hash? && NodeKey(path) !in deathRow && DbNode(db.store, path).Some? ==>
                r == Success(old(nextKey)) && nextKey == old(nextKey) + 1 &&
                nodes == old(nodes)[old(nextKey) := DbNode(db.store, path).value]
      ensures handle.Hash? && (NodeKey(path) in deathRow || DbNode(db.store, path).None?) ==> r.Failure?
    {
      match handle {
        case Hash(_) =>
          var id :- LoadDbNode(db, NodeKey(path));
          if id.None? {
            return Failure(TrieError("Could not get node from db"));
          }
          return Success(id.value);
        case InMemory(key) =>
          return Success(key);
      }
    }

    /** The tree after the walk of a key has gone one node further. */
    lemma {:induction false} OneStepOn(db: Database, a: Shape, s: Store, free: ArenaKey, key: Bits, n: nat, sub: Shape)
      requires TreeInv(H, maxHeight, Some(a), rootNode, s, free) && |key| == maxHeight && s.db == db
      requires Reached(a, key, n) && n <= |key| && sub == At(a, key, n) && InArena(sub)
      requires Follows(sub, key[n..]) && !Toward(sub, key[n..]).LeafAt?
      requires sub.at.key in s.nodes && (s.nodes[sub.at.key].Binary? ==> key[n..] != [])
      requires if InArena(Toward(sub, key[n..])) then Arena(db) == s && nextKey == free
               else
                 && DbNode(s.db, key[..n] + key[n..][..StepLen(sub)]).Some? && nextKey == free + 1
                 && Arena(db) == s.(nodes := s.nodes[free := DbNode(s.db, key[..n] + key[n..][..StepLen(sub)]).value]
                                                    [sub.at.key :=
                                                    PointTo(s.nodes[sub.at.key], key[n..], InMemory(free))])
      requires shape == Some(Advanced(a, key, n, free))
      ensures TreeInv(H, maxHeight, shape, rootNode, Arena(db), nextKey) && Root() == Some(Denote(a))
      ensures var c := Toward(sub, key[n..]);
              StepTaken(a, shape.value, key, n, if InArena(c) then c.at.key else free)
      ensures Coherent(H, a, s.nodes) ==> Hashed()
      ensures forall d :: PassesUnmarked(key, d) <==> Unmarked(a, key, d, s.nodes)
      ensures RootMark() == TopHash(H, a, s.nodes)
      ensures Walked(a, key) ==> shape == Some(a)
    {
      hide Denote, Canonical, Holds, HoldsTop, At, NoLeak, Coherent, TreeInv, Reached, Slots, Placed, DbNode, Advanced,
           Unmarked, TopHash, Walked, StepTaken;
      AdvanceInv(H, maxHeight, a, rootNode, s, free, key, n, sub, Arena(db), nextKey);
      forall d: nat ensures PassesUnmarked(key, d) <==> Unmarked(a, key, d, s.nodes) {
        AdvanceMarks(H, maxHeight, a, rootNode, s, free, key, n, sub, d, nodes);
      }
      AdvanceMarks(H, maxHeight, a, rootNode, s, free, key, n, sub, 0, nodes);
      AdvanceLoaded(a, key, n, free);
    }

    // ----- hashes on demand -----

    /** The hash behind a handle, computed and remembered along the way where none is cached. */
    method GetOrComputeNodeHash(handle: NodeHandle, ghost db: Database, ghost a: Shape, ghost p: Bits)
      returns (hash: Felt)
      requires HandleOf(H, a) == handle && Placed(a) && Holds(H, a, p, Arena(db))
      modifies this`nodes
      ensures OnlyHashes(old(nodes), nodes, Slots(a)) && HashesRemain(old(nodes), nodes)
      ensures handle.InMemory? ==> handle.key in nodes && nodes[handle.key].hash.Some?
      ensures old(Coherent(H, a, nodes)) ==> hash == Tries.Hash(H, Denote(a)) && Coherent(H, a, nodes)
      decreases a
    {
      match handle {
        case Hash(felt) =>
          return felt;
        case InMemory(key) =>
          ghost var s0 := Arena(db);
          var node := nodes[key];
          if node.hash.Some? {
            return node.hash.value;
          }
          match node {
            case Binary(_, _, left, right) =>
              var leftHash := GetOrComputeNodeHash(left, db, a.left, p + [false]);
              ghost var s1 := Arena(db);
              SiblingHashed(H, a, p, s0, s1);
              var rightHash := GetOrComputeNodeHash(right, db, a.right, p + [true]);
              hash := HashBinaryNode(H, leftHash, rightHash);
              ghost var nodes2 := nodes;
              nodes := nodes[key := nodes[key].WithHash(hash)];
              BranchHashed(H, a, s0.nodes, s1.nodes, nodes2, hash, nodes);
            case Edge(_, _, path, child) =>
              var childHash := GetOrComputeNodeHash(child, db, a.child, p + path);
              hash := HashEdgeNode(H, path, childHash);
              ghost var nodes1 := nodes;
              nodes := nodes[key := nodes[key].WithHash(hash)];
              StemHashed(H, a, s0.nodes, nodes1, hash, nodes);
          }
      }
    }

    // ----- reading -----

    /** The value of a key: from the overlay, or else from the flat table. */
    method Get(db: KeyValueDB, key: Bits) returns (r: Option<Felt>)
      requires Valid(db.store)
      ensures r == View(cacheLeafModified, db.store, key)
      ensures |key| == maxHeight ==> (r.Some? <==> Find(Root(), key).Some?)
    {
      hide TreeInv, BitsliceToBytes, Lookup;
      assert |key| == maxHeight ==> KeyAgrees(Root(), cacheLeafModified, db.store, key);
      var keyBytes := BitsliceToBytes(key);
      if keyBytes in cacheLeafModified {
        match cacheLeafModified[keyBytes] {
          case Remove => return None;
          case Insert(value) => return Some(value);
        }
      }
      if FlatKey(key) !in db.store { return None; }
      return Some(db.store[FlatKey(key)].felt);
    }

    method Contains(db: KeyValueDB, key: Bits) returns (r: bool)
      requires Valid(db.store)
      ensures r == View(cacheLeafModified, db.store, key).Some?
      ensures |key| == maxHeight ==> (r <==> Find(Root(), key).Some?)
    {
      hide TreeInv, BitsliceToBytes, Lookup;
      assert |key| == maxHeight ==> KeyAgrees(Root(), cacheLeafModified, db.store, key);
      var keyBytes := BitsliceToBytes(key);
      if keyBytes in cacheLeafModified {
        match cacheLeafModified[keyBytes] {
          case Remove => return false;
          case Insert(_) => return true;
        }
      }
      r := FlatKey(key) in db.store;
    }

    /** The root hash remembered by the loaded root, or stored with it. With nothing loaded it is always right. */
    method RootHash(db: KeyValueDB) returns (r: Result<Felt, StorageError>)
      requires Sound(db.store)
      ensures r == if RootMark().Some? then Success(RootMark().value)
                   else Failure(TrieError("The tree has uncommited changes"))
      ensures r.Success? && Hashed() ==> r.value == Tries.RootHash(H, Root())
      ensures rootNode.None? || rootNode.value.Empty? ==> r == Success(Tries.RootHash(H, Root()))
      ensures rootNode.Some? && rootNode.value.Loaded? ==>
                r.Success? == nodes[rootNode.value.key].hash.Some?
    {
      hide Denote, Canonical, Holds, HoldsTop, NoLeak, Slots, Placed, Refers, Tries.Hash;
      match rootNode {
        case Some(Empty) => return Success(0);
        case Some(Loaded(nodeId)) =>
          StandsInArena(H, maxHeight, shape.value, rootNode, Arena(db.store), nextKey);
          var node := nodes[nodeId];
          if node.hash.None? { return Failure(TrieError("The tree has uncommited changes")); }
          return Success(node.hash.value);
        case None =>
          TreeState.UnloadedRoot(H, maxHeight, shape, Arena(db.store), nextKey);
          if shape.Some? { RootOnDisk(H, maxHeight, shape.value, Arena(db.store), nextKey); }
          var node := GetTrieBranchInDbFromPath(db, []);
          if node.None? { return Success(0); }
          return Success(node.value.hash.value);
      }
    }

    // ----- committing -----

    /** A child: the loaded node behind its handle, or its value or hash. */
    function GetNodeOrFelt(handle: NodeHandle): Result<NodeOrFelt, StorageError>
      reads this
    {
      match handle
      case Hash(hash) => Success(FeltChild(hash))
      case InMemory(key) =>
        if key in nodes then Success(NodeChild(nodes[key]))
        else Failure(TrieError("Couldn't fetch node in the temporary storage"))
    }

    /** The hash of the node from its loaded descendants alone, whatever hashes are cached. The hashes computed on the
        way are appended children first; two loaded children are hashed independently of each other, the right one
        into a list of its own. */
    method ComputeHashes(node: Node, hashes: seq<Felt>, ghost db: Database, ghost a: Shape, ghost p: Bits)
      returns (hash: Felt, hashes': seq<Felt>)
      requires InArena(a) && Holds(H, a, p, Arena(db)) && a.at.key in nodes && node == nodes[a.at.key]
      ensures hash == Tries.Hash(H, Denote(a))
      ensures hashes' == hashes + HashList(H, a)
      decreases a, 0
    {
      hide DbNode, NodeKey, HashList;
      AppendHashes(H, a, hashes);
      match node {
        case Binary(_, _, left, right) =>
          var nodeLeft, nodeRight := GetNodeOrFelt(left), GetNodeOrFelt(right);
          assert nodeLeft.Success? && nodeRight.Success?;
          var leftHash, rightHash;
          hashes' := hashes;
          if nodeLeft.value.NodeChild? && nodeRight.value.NodeChild? {
            leftHash, hashes' := ComputeHashes(nodeLeft.value.node, hashes', db, a.left, p + [false]);
            var hashes2;
            rightHash, hashes2 := ComputeHashes(nodeRight.value.node, [], db, a.right, p + [true]);
            hashes' := hashes' + hashes2;
          } else {
            leftHash, hashes' := ComputeChild(left, hashes', db, a.left, p + [false]);
            rightHash, hashes' := ComputeChild(right, hashes', db, a.right, p + [true]);
          }
          hash := HashBinaryNode(H, leftHash, rightHash);
          hashes' := hashes' + [hash];
        case Edge(_, _, path, child) =>
          var childHash;
          childHash, hashes' := ComputeChild(child, hashes, db, a.child, p + path);
          hash := HashEdgeNode(H, path, childHash);
          hashes' := hashes' + [hash];
      }
    }

    /** Hashes the child if it is loaded; its value or hash either way. */
    method ComputeChild(handle: NodeHandle, hashes: seq<Felt>, ghost db: Database, ghost a: Shape, ghost p: Bits)
      returns (hash: Felt, hashes': seq<Felt>)
      requires HandleOf(H, a) == handle && Holds(H, a, p, Arena(db))
      ensures hash == Tries.Hash(H, Denote(a))
      ensures hashes' == hashes + HashList(H, a)
      decreases a, 1
    {
      hide DbNode, NodeKey, Tries.Hash, Denote;
      var child := GetNodeOrFelt(handle);
      assert child.Success?;
      match child.value {
        case FeltChild(felt) => hash, hashes' := felt, hashes;
        case NodeChild(n) => hash, hashes' := ComputeHashes(n, hashes, db, a, p);
      }
    }

    /** The loaded root, if any, is the top of the shape. */
    ghost predicate Standing(db: Database)
      reads this
    {
      rootNode.Some? && rootNode.value.Loaded? ==>
        && shape.Some? && InArena(shape.value) && shape.value.at.key == rootNode.value.key && Placed(shape.value)
        && Holds(H, shape.value, [], Arena(db)) && Slots(shape.value) == nodes.Keys && shape.value.at.key in nodes
    }

    method ComputeRootHash(hashes: seq<Felt>, ghost db: Database) returns (r: Result<(Felt, seq<Felt>), StorageError>)
      requires Standing(db)
      ensures rootNode.None? ==> r.Failure?
      ensures rootNode == Some(RootHandle.Empty) ==> r == Success((0, hashes))
      ensures rootNode.Some? && rootNode.value.Loaded? ==>
                r == Success((Tries.Hash(H, Denote(shape.value)), hashes + HashList(H, shape.value)))
    {
      hide Denote, Holds, Tries.Hash, HashList, Slots, Placed;
      match rootNode {
        case None => return Failure(TrieError("Root node is not loaded"));
        case Some(Empty) => return Success((0, hashes));
        case Some(Loaded(key)) =>
          var hash, hashes' := ComputeHashes(nodes[key], hashes, db, shape.value, []);
          return Success((hash, hashes'));
      }
    }

    /** Takes the loaded subtree out of the arena and queues its records, each with the next of the computed hashes,
        which is always there and always its own. */
    method CommitSubtree(updates: Updates, nodeId: ArenaKey, path: Bits, hashes: seq<Felt>, ghost db: Database,
            ghost a: Shape)
      returns (hash: Felt, updates': Updates, hashes': seq<Felt>)
      requires InArena(a) && a.at.key == nodeId && Placed(a) && Holds(H, a, path, Arena(db))
      requires HashList(H, a) <= hashes
      modifies this`nodes
      ensures nodes == old(nodes) - Slots(a)
      ensures hash == Tries.Hash(H, Denote(a))
      ensures updates' == updates + Writes(H, a, path)
      ensures hashes' == hashes[|HashList(H, a)|..]
      decreases a, 0
    {
      hide DbNode, NodeKey, PathOf, Writes, HashList;
      ghost var s0 := Arena(db);
      var node := nodes[nodeId];
      nodes := nodes - {nodeId};
      match node {
        case Binary(_, height, left, right) =>
          BranchQueue(H, a, hashes);
          BranchWrites(H, a, path, updates);
          HoldsFrame(H, a.left, path + [false], s0, Arena(db));
          var leftHash;
          leftHash, updates', hashes' := CommitChild(updates, left, path + [false], hashes, db, a.left);
          HoldsFrame(H, a.right, path + [true], s0, Arena(db));
          var rightHash;
          rightHash, updates', hashes' := CommitChild(updates', right, path + [true], hashes', db, a.right);
          hash := hashes'[0];
          hashes' := hashes'[1..];
          node := Node.Binary(Some(hash), height, NodeHandle.Hash(leftHash), NodeHandle.Hash(rightHash));
          updates' := updates'[NodeKey(path) := Insert(NodeValue(node))];
        case Edge(_, height, edgePath, child) =>
          StemQueue(H, a, hashes);
          StemWrites(H, a, path, updates);
          HoldsFrame(H, a.child, path + edgePath, s0, Arena(db));
          var childHash;
          childHash, updates', hashes' := CommitChild(updates, child, path + edgePath, hashes, db, a.child);
          hash := hashes'[0];
          hashes' := hashes'[1..];
          node := Node.Edge(Some(hash), height, edgePath, NodeHandle.Hash(childHash));
          updates' := updates'[NodeKey(path) := Insert(NodeValue(node))];
      }
    }

    /** Commits the child if it is loaded; its hash either way. */
    method CommitChild(updates: Updates, handle: NodeHandle, path: Bits, hashes: seq<Felt>, ghost db: Database,
            ghost a: Shape)
      returns (hash: Felt, updates': Updates, hashes': seq<Felt>)
      requires HandleOf(H, a) == handle && Placed(a) && Holds(H, a, path, Arena(db))
      requires HashList(H, a) <= hashes
      modifies this`nodes
      ensures nodes == old(nodes) - Slots(a)
      ensures hash == Tries.Hash(H, Denote(a))
      ensures updates' == updates + Writes(H, a, path)
      ensures hashes' == hashes[|HashList(H, a)|..]
      decreases a, 1
    {
      match handle {
        case Hash(felt) =>
          NothingLoaded(H, a, path);
          return felt, updates, hashes;
        case InMemory(nodeId) =>
          hash, updates', hashes' := CommitSubtree(updates, nodeId, path, hashes, db, a);
      }
    }

    method TakeDeathRow() returns (updates: Updates)
      modifies this`deathRow
      ensures deathRow == {} && updates == Removals(old(deathRow))
    {
      var removals := deathRow;
      deathRow := {};
      updates := map[];
      while removals != {}
        invariant removals <= old(deathRow) && updates == Removals(old(deathRow) - removals)
      {
        var key :| key in removals;
        updates := updates[key := Remove];
        removals := removals - {key};
      }
    }

    method TakeOverlay(updates: Updates) returns (updates': Updates)
      modifies this`cacheLeafModified
      ensures cacheLeafModified == map[] && updates' == updates + FlatUpdates(old(cacheLeafModified))
    {
      hide FlatUpdates;
      var leaves := cacheLeafModified;
      cacheLeafModified := map[];
      updates' := updates;
      var remaining := leaves.Keys;
      NoFlatUpdates(leaves, updates);
      while remaining != {}
        invariant remaining <= leaves.Keys
        invariant updates' == updates + FlatUpdates(leaves - remaining)
        invariant cacheLeafModified == map[]
      {
        var b :| b in remaining;
        FlatStep(leaves, remaining, b, updates);
        updates' := updates'[FlatEntry(b) := FlatUpdate(leaves[b])];
        remaining := remaining - {b};
      }
      assert leaves - remaining == leaves;
    }

    /** Hashes and takes out everything loaded. */
    method CommitRoot(updates: Updates, ghost db: Database) returns (updates': Updates)
      requires Standing(db) && (rootNode.None? || rootNode.value.Empty? ==> nodes == map[])
      modifies this`nodes, this`rootNode
      ensures rootNode == None && nodes == map[]
      ensures old(rootNode).Some? && old(rootNode).value.Loaded? ==> updates' == updates + Writes(H, shape.value, [])
      ensures old(rootNode).None? || old(rootNode).value.Empty? ==> updates' == updates
    {
      hide Denote, Holds, Tries.Hash, HashList, Slots, Placed, Writes;
      updates' := updates;
      if rootNode.Some? && rootNode.value.Loaded? {
        // first the hashes of all loaded nodes, in post-order
        var computed := ComputeRootHash([], db);
        var (_, hashes) := computed.value;
        assert [] + HashList(H, shape.value) == HashList(H, shape.value);
        // then every loaded node leaves the arena as an update
        var _, committed, rest := CommitSubtree(updates', rootNode.value.key, [], hashes, db, shape.value);
        updates' := committed;
        assert rest == [];
      }
      rootNode := None;
    }

    /** Everything a commit has to write: removals for the death row, the loaded nodes, and the modified leaves.
        Leaves the tree empty-handed: the root is not loaded and the arena is empty. */
    method GetUpdates(ghost db: Database) returns (updates: Updates)
      requires Valid(db)
      modifies this
      ensures updates == AllUpdates(H, old(shape), old(deathRow), old(cacheLeafModified))
      ensures nodes == map[] && rootNode == None && deathRow == {} && cacheLeafModified == map[]
      ensures Valid(Applied(db, updates)) && Root() == old(Root()) && Hashed()
      ensures Exact(Root(), Applied(db, updates))
      ensures forall key :: View(map[], Applied(db, updates), key) == View(old(cacheLeafModified), db, key)
    {
      hide TreeInv, Denote, Holds, Writes, HashList, Applied, Exact, Typed, OverlayTyped, Slots, Placed, Lookup,
           FlatGet, BitsliceToBytes, AllUpdates, Unloaded, View, FlatInv, KeyAgrees, Coherent, Removals,
           FlatUpdates, NoLeak;
      ghost var s := Arena(db);
      CommitInv(H, maxHeight, shape, rootNode, s, nextKey, cacheLeafModified);
      BeforeCommit(H, maxHeight, shape, rootNode, s, nextKey);
      AsAllUpdates(H, shape, rootNode, deathRow, cacheLeafModified);
      updates := TakeDeathRow();
      updates := CommitRoot(updates, db);
      updates := TakeOverlay(updates);
      shape := UnloadedShape(shape);
      if shape.Some? {
        UnloadedDenotes(old(shape).value);
        DiskCoherent(H, shape.value, nodes);
      }
    }

    // ----- setting -----

    /** An edge along the path to the child, or the child itself when the path is empty. */
    method AddEdge(height: nat, path: Bits, child: NodeHandle) returns (handle: NodeHandle)
      modifies this`nodes, this`nextKey
      ensures path == [] ==> handle == child && nodes == old(nodes) && nextKey == old(nextKey)
      ensures path != [] ==> handle == InMemory(old(nextKey)) && nextKey == old(nextKey) + 1
      ensures path != [] ==> nodes == old(nodes)[old(nextKey) := Node.Edge(None, height, path, child)]
    {
      if path == [] {
        return child;
      }
      var key := InsertNode(Node.Edge(None, height, path, child));
      return InMemory(key);
    }

    /** The nodes a split needs: edges to the new leaf and to the old child where they are some bits away,
        the branch between them, and the edge leading to it. Returns what takes the split edge's own slot. */
    method MakeFork(edge: Node, common: Bits, key: Bits, value: Felt) returns (newNode: Node, ghost f: Fresh)
      requires edge.Edge? && |common| < |edge.path| && edge.height + |common| < |key|
      modifies this`nodes, this`nextKey
      ensures f.Apart({}) && f.newEdge >= old(nextKey) && f.oldEdge >= old(nextKey) && f.branch >= old(nextKey)
      ensures var m := edge.height + |common|;
              var oldPath, newPath := edge.path[|common| + 1..], key[m + 1..];
              && SplitEntries(common, key[m], oldPath, edge.child, newPath, NodeHandle.Hash(value), f, edge.height,
                 nodes)
              && newNode == SplitTop(common, key[m], SideHandle(f.newEdge, newPath, NodeHandle.Hash(value)),
                                     SideHandle(f.oldEdge, oldPath, edge.child), f, edge.height)
              && nodes.Keys == old(nodes).Keys + SplitTakes(common, oldPath, newPath, f)
      ensures nextKey >= old(nextKey) && forall e :: e in nodes && e !in old(nodes) ==> e < nextKey
      ensures forall e :: e in old(nodes) && e < old(nextKey) ==> e in nodes && nodes[e] == old(nodes)[e]
      ensures newNode.hash.None?
      ensures forall e :: e in nodes ==> nodes[e].hash.None? || (e in old(nodes) && nodes[e] == old(nodes)[e])
    {
      var branchHeight := edge.height + |common|;
      var childHeight := branchHeight + 1;
      var newPath, oldPath := key[childHeight..], edge.path[|common| + 1..];
      f := Fresh(if newPath == [] then nextKey + 3 else nextKey, 0, 0);
      var newHandle := AddEdge(childHeight, newPath, NodeHandle.Hash(value));
      f := f.(oldEdge := if oldPath == [] then nextKey + 4 else nextKey);
      var oldHandle := AddEdge(childHeight, oldPath, edge.child);
      f := f.(branch := if common == [] then nextKey + 5 else nextKey);
      var (left, right) := if key[branchHeight] then (oldHandle, newHandle) else (newHandle, oldHandle);
      var branch := Node.Binary(None, branchHeight, left, right);
      if common == [] {
        newNode := branch;
      } else {
        var branchId := InsertNode(branch);
        newNode := Node.Edge(None, edge.height, common, InMemory(branchId));
      }
    }

    /** Splits the edge a seek for an absent key ended at. */
    method SplitEdge(ghost db: Database, nodeId: ArenaKey, edge: Node, common: Bits, key: Bits, value: Felt,
            ghost n: nat)
      requires Sound(db) && |key| == maxHeight && value != 0
      requires shape.Some? && IsEnd(shape.value, key, n) && At(shape.value, key, n).StemAt?
      requires nodeId == At(shape.value, key, n).at.key && nodeId in nodes && edge == nodes[nodeId] && edge.Edge?
      requires common == edge.CommonPath(key) && edge.height + |common| < |key|
      modifies this`nodes, this`nextKey, this`deathRow, this`shape
      ensures Sound(db) && Root() == Some(TrieInsert(old(Root()).value, key, value))
      ensures deathRow == old(deathRow) + {SplitDeathKey(key[..edge.height])}
      ensures old(Unhashed(db)) ==> Unhashed(db)
      ensures old(Hashed()) ==>
                && PassedBits(old(Root()).value, key) == n
                && HashesKept(H, old(Root()), Root(), key, n, old(PassesUnmarked(key, n)), Hashed())
                && (n > 0 ==> RootMark() == old(RootMark()))
    {
      hide Denote, Canonical, Holds, Refers, HoldsTop, At, TraceTo, NoLeak, Coherent, TreeInv, Reached, Slots,
           Placed, Typed, Lookup, CommonLen, SplitShape, TrieInsert, SplitTop, SplitTakes, SplitBranch, SideHandle,
           Graft, SplitRecorded, SplitEntries, HandleOf, SplitDeathKey, HashesStay, HashesChange, Unmarked, TopHash,
           PassedBits;
      ghost var a, s, start := shape.value, Arena(db), nextKey;
      ghost var sub, rest := At(a, key, n), key[n..];
      SplitPoint(H, maxHeight, a, rootNode, s, start, key, n, sub, edge, |common|);
      var newNode, f := MakeFork(edge, common, key, value);
      deathRow := deathRow + {SplitDeathKey(key[..edge.height])};
      ForkRecorded(H, nodeId, common, key[n + |common|], sub.path[|common| + 1..], sub.child,
        key[n + |common| + 1..], value, f, n, nodes, newNode);
      nodes := nodes[nodeId := newNode];
      shape := Some(Graft(a, key, n, SplitShape(nodeId, common, rest[|common|], sub.path[|common| + 1..], sub.child,
                                                rest[|common| + 1..], value, f)));
      SplitSet(db, a, s, start, key, n, sub, value, |common|, f);
    }

    /** The tree after an edge was split. */
    lemma {:induction false} SplitSet(db: Database, a: Shape, s: Store, start: ArenaKey, key: Bits, n: nat, sub: Shape,
            value: Felt, m: nat, f: Fresh)
      requires TreeInv(H, maxHeight, Some(a), rootNode, s, start) && s.db == db && |key| == maxHeight && value != 0
      requires IsEnd(a, key, n) && sub == At(a, key, n) && sub.StemAt?
      requires m < |sub.path| && m < |key[n..]| && m == CommonLen(sub.path, key[n..])
      requires f.Apart({}) && f.newEdge >= start && f.oldEdge >= start && f.branch >= start
      requires SplitRecorded(H, sub.at.key, sub.path[..m], key[n..][m], sub.path[m + 1..], sub.child,
                 key[n..][m + 1..], value, f, n, nodes)
      requires forall e :: e in s.nodes && e != sub.at.key ==> e in nodes && nodes[e] == s.nodes[e]
      requires nodes.Keys == s.nodes.Keys + SplitTakes(sub.path[..m], sub.path[m + 1..], key[n..][m + 1..], f)
      requires start <= nextKey && forall e :: e in nodes && e !in s.nodes ==> e < nextKey
      requires deathRow == s.dead + {SplitDeathKey(key[..n])}
      requires shape == Some(Graft(a, key, n, SplitShape(sub.at.key, sub.path[..m], key[n..][m], sub.path[m + 1..],
                                                         sub.child, key[n..][m + 1..], value, f)))
      ensures TreeInv(H, maxHeight, shape, rootNode, Arena(db), nextKey)
              && Root() == Some(TrieInsert(Denote(a), key, value))
      ensures Coherent(H, a, s.nodes) ==>
                && PassedBits(Denote(a), key) == n && (n > 0 ==> RootMark() == TopHash(H, a, s.nodes))
                && HashesKept(H, Some(Denote(a)), Root(), key, n, Unmarked(a, key, n, s.nodes), Hashed())
    {
      hide Denote, Canonical, Holds, Refers, HoldsTop, At, NoLeak, Coherent, TreeInv, Reached, Slots, Placed,
           CommonLen, SplitShape, TrieInsert, SplitTakes, Graft, SplitRecorded, SplitDeathKey, HashesStay,
           HashesChange, Unmarked, TopHash, PassedBits;
      SplitInv(H, maxHeight, a, rootNode, s, start, key, n, sub, value, m, f, Arena(db), nextKey);
      if Coherent(H, a, s.nodes) {
        SplitHashes(H, maxHeight, a, rootNode, s, start, key, n, sub, value, m, f, nodes);
        StayIsKept(H, a, shape.value, key, n, s.nodes, nodes);
      }
    }

    /** Sets the value of a key; zero deletes it. */
    method Set(db: KeyValueDB, key: Bits, value: Felt) returns (r: Result<(), StorageError>)
      requires Valid(db.store)
      modifies this
      ensures Valid(db.store)
      ensures |key| != maxHeight ==> r == Failure(KeyLength(maxHeight, |key|)) && Abstract() == old(Abstract())
      ensures |key| == maxHeight ==> r.Success? && Abstract() == Update(old(Abstract()), db.store, key, value)
      ensures old(Unhashed(db.store)) ==> Unhashed(db.store)
      ensures |key| != maxHeight && old(Hashed()) ==> Hashed()
      ensures |key| == maxHeight && old(Hashed()) ==>
                var d := EditDepth(old(Abstract()), db.store, key, value);
                && HashesKept(H, old(Root()), Root(), key, d, old(PassesUnmarked(key, d)), Hashed())
                && (d > 0 ==> RootMark() == old(RootMark()))
    {
      hide Denote, Canonical, Holds, NoLeak, TreeInv, Typed, Lookup, TrieInsert, TrieDelete, KeyAgrees, OverlayTyped,
           BitsliceToBytes, RootInsert;
      if value == 0 {
        r := DeleteLeaf(db, key);
        return;
      }
      if |key| != maxHeight {
        return Failure(KeyLength(maxHeight, |key|));
      }
      ghost var before := Abstract();
      StateOf(db.store);
      UpdateInv(before, db.store, maxHeight, key, value);
      var keyBytes := BitsliceToBytes(key);
      if keyBytes in cacheLeafModified && cacheLeafModified[keyBytes].Insert? {
        cacheLeafModified := cacheLeafModified[keyBytes := Insert(value)];
        return Success(());
      }
      if FlatKey(key) in db.store && db.store[FlatKey(key)] == FeltValue(value) {
        return Success(());
      }
      cacheLeafModified := cacheLeafModified[keyBytes := Insert(value)];
      SetInTrie(db, key, value);
      return Success(());
    }

    lemma {:induction false} StateOf(db: Database)
      requires Valid(db)
      ensures StateInv(Abstract(), db, maxHeight)
    {
    }

    /** Puts the leaf into the trie: overwrites it, splits the edge the key leaves, or starts a new trie. */
    method SetInTrie(db: KeyValueDB, key: Bits, value: Felt)
      requires Sound(db.store) && |key| == maxHeight && value != 0
      modifies this`rootNode, this`nodes, this`nextKey, this`deathRow, this`shape
      ensures Sound(db.store) && Root() == Some(RootInsert(old(Root()), key, value))
      ensures old(Unhashed(db.store)) ==> Unhashed(db.store)
      ensures old(Hashed()) ==>
                var d := if old(Root()).None? then 0 else PassedBits(old(Root()).value, key);
                && HashesKept(H, old(Root()), Root(), key, d, old(PassesUnmarked(key, d)), Hashed())
                && (d > 0 ==> RootMark() == old(RootMark()))
    {
      hide Denote, Canonical, Holds, Refers, HoldsTop, TraceTo, NoLeak, Coherent, TreeInv,
           Slots, Placed, Typed, Lookup, TrieInsert, EndPath, HashesChange, Unmarked, TopHash, PassedBits;
      var iter := new MerkleTreeIterator(this, db);
      iter.TraverseTo(null, key);
      var pathNodes := iter.currentNodesHeights;
      if pathNodes == [] {
        ghost var before := Arena(db.store);
        var nodeId := InsertNode(Node.Edge(None, 0, key, NodeHandle.Hash(value)));
        ghost var oldRoot := rootNode;
        rootNode := Some(RootHandle.Loaded(nodeId));
        FirstLeafInv(H, maxHeight, oldRoot, before, nodeId, key, value, Arena(db.store));
        shape := Some(StemAt(Slot(nodeId), key, LeafAt(value)));
      } else {
        ghost var d := PassedBits(Root().value, key);
        assert PassesUnmarked(key, d) <==> old(PassesUnmarked(key, d));
        var (nodeId, _) := pathNodes[|pathNodes| - 1];
        SetAtNode(db, nodeId, key, value, iter.depth);
      }
    }

    /** Puts the leaf in at the node its seek ended at. */
    method SetAtNode(db: KeyValueDB, nodeId: ArenaKey, key: Bits, value: Felt, ghost n: nat)
      requires Sound(db.store) && |key| == maxHeight && value != 0
      requires shape.Some? && IsEnd(shape.value, key, n) && nodeId == At(shape.value, key, n).at.key
      modifies this`nodes, this`nextKey, this`deathRow, this`shape
      ensures Sound(db.store) && Root() == Some(TrieInsert(old(Root()).value, key, value))
      ensures old(Unhashed(db.store)) ==> Unhashed(db.store)
      ensures old(Hashed()) ==>
                var d := PassedBits(old(Root()).value, key);
                && HashesKept(H, old(Root()), Root(), key, d, old(PassesUnmarked(key, d)), Hashed())
                && (d > 0 ==> RootMark() == old(RootMark()))
    {
      hide Denote, Canonical, Holds, Refers, HoldsTop, TraceTo, NoLeak, Coherent, TreeInv, Slots, Placed, Typed,
           Lookup, CommonLen, TrieInsert, Graft, EndPath, HashesStay, HashesChange, Unmarked, TopHash, PassedBits;
      ghost var a, s := shape.value, Arena(db.store);
      ghost var sub := At(a, key, n);
      ReadNode(H, maxHeight, a, rootNode, s, nextKey, key, n, sub);
      var node := nodes[nodeId];
      SetPoint(H, maxHeight, a, rootNode, s, nextKey, key, n, sub, node);
      match node {
        case Edge(_, _, _, _) =>
          var common := node.CommonPath(key);
          if node.height + |common| == |key| {
            nodes := nodes[nodeId := node.(child := NodeHandle.Hash(value))];
            shape := Some(Graft(a, key, n, Redirect(sub, key[n..], LeafAt(value))));
            LeafSet(db.store, a, s, key, n, value);
          } else {
            SplitEdge(db.store, nodeId, node, common, key, value, n);
          }
        case Binary(_, _, _, _) =>
          if node.height + 1 == |key| {
            nodes := nodes[nodeId := node.SetChild(key[node.height], NodeHandle.Hash(value))];
            shape := Some(Graft(a, key, n, Redirect(sub, key[n..], LeafAt(value))));
            LeafSet(db.store, a, s, key, n, value);
          }
      }
    }

    /** The tree after a leaf below the end of its seek was overwritten. */
    lemma {:induction false} LeafSet(db: Database, a: Shape, s: Store, key: Bits, n: nat, value: Felt)
      requires TreeInv(H, maxHeight, Some(a), rootNode, s, nextKey) && s.db == db && |key| == maxHeight && value != 0
      requires IsEnd(a, key, n) && Follows(At(a, key, n), key[n..]) && deathRow == s.dead
      requires var sub := At(a, key, n);
               && sub.at.key in s.nodes && (s.nodes[sub.at.key].Binary? ==> key[n..] != [])
               && nodes == s.nodes[sub.at.key := PointTo(s.nodes[sub.at.key], key[n..], NodeHandle.Hash(value))]
               && shape == Some(Graft(a, key, n, Redirect(sub, key[n..], LeafAt(value))))
      ensures TreeInv(H, maxHeight, shape, rootNode, Arena(db), nextKey)
              && Root() == Some(TrieInsert(Denote(a), key, value))
      ensures Coherent(H, a, s.nodes) ==>
                && PassedBits(Denote(a), key) == |key| && RootMark() == TopHash(H, a, s.nodes)
                && HashesKept(H, Some(Denote(a)), Root(), key, |key|, Unmarked(a, key, |key|, s.nodes), Hashed())
    {
      hide Denote, Canonical, Holds, Refers, HoldsTop, NoLeak, Coherent, TreeInv, Slots, Placed, TrieInsert, Graft,
           At, Reached, HashesStay, HashesChange, Unmarked, TopHash, PassedBits;
      ghost var sub := At(a, key, n);
      LeafInv(H, maxHeight, a, rootNode, s, nextKey, key, n, sub, value, Arena(db));
      if Coherent(H, a, s.nodes) {
        LeafHashes(H, maxHeight, a, rootNode, s, nextKey, key, n, sub, value, Arena(db));
        StayIsKept(H, a, shape.value, key, |key|, s.nodes, nodes);
      }
    }

    // ----- deleting -----

    method GetTrieBranchInDbFromPath(db: KeyValueDB, path: Bits) returns (r: Option<Node>)
      ensures r == if NodeKey(path) in deathRow then None else DbNode(db.store, path)
    {
      if NodeKey(path) in deathRow || NodeKey(path) !in db.store {
        return None;
      }
      match db.store[NodeKey(path)] {
        case NodeValue(node) => return Some(node);
        case FeltValue(_) => return None;
      }
    }

    /** The edge merged with its child at the given position if that is an edge too, in the arena or in the database. */
    method MergeEdges(parent: Node, db: KeyValueDB, path: Bits) returns (merged: Node)
      requires parent.Edge? && (parent.child.InMemory? ==> parent.child.key in nodes)
      modifies this`nodes, this`deathRow
      ensures merged == Merged(parent, ChildRecord(old(Arena(db.store)), parent.child, path))
      ensures Arena(db.store) == MergedStore(old(Arena(db.store)), parent.child, path)
      ensures forall e :: e in deathRow ==> e in old(deathRow) || e.NodeEntry?
      ensures merged.hash == parent.hash && forall e :: e in nodes ==> e in old(nodes) && nodes[e] == old(nodes)[e]
    {
      merged := parent;
      match parent.child {
        case Hash(_) =>
          var node := GetTrieBranchInDbFromPath(db, path);
          if node.Some? && node.value.Edge? {
            merged := parent.(path := parent.path + node.value.path, child := node.value.child);
            deathRow := deathRow + {NodeKey(path)};
          }
        case InMemory(childId) =>
          var node := nodes[childId];
          if node.Edge? {
            merged := parent.(path := parent.path + node.path, child := node.child);
            nodes := nodes - {childId};
            deathRow := deathRow + {NodeKey(path)};
          }
      }
    }

    /** Deletes a key from trie and overlay; a key that is not in view is left alone. */
    method DeleteLeaf(db: KeyValueDB, key: Bits) returns (r: Result<(), StorageError>)
      requires Valid(db.store)
      modifies this
      ensures Valid(db.store)
      ensures |key| != maxHeight ==> r == Failure(KeyLength(maxHeight, |key|)) && Abstract() == old(Abstract())
      ensures |key| == maxHeight ==> r.Success? && Abstract() == DeleteState(old(Abstract()), db.store, key)
      ensures old(Unhashed(db.store)) ==> Unhashed(db.store)
      ensures |key| != maxHeight && old(Hashed()) ==> Hashed()
      ensures |key| == maxHeight && old(Hashed()) ==>
                var d := EditDepth(old(Abstract()), db.store, key, 0);
                && HashesKept(H, old(Root()), Root(), key, d, old(PassesUnmarked(key, d)), Hashed())
                && (d > 0 ==> RootMark() == old(RootMark()))
    {
      hide Denote, Canonical, Holds, NoLeak, TreeInv, Typed, Lookup, TrieDelete, OverlayTyped, BitsliceToBytes;
      if |key| != maxHeight {
        return Failure(KeyLength(maxHeight, |key|));
      }
      StateOf(db.store);
      UpdateInv(Abstract(), db.store, maxHeight, key, 0);
      assert KeyAgrees(Root(), cacheLeafModified, db.store, key);
      FlatPresence(db.store, maxHeight, key);
      var keyBytes := BitsliceToBytes(key);
      var treeHasValue: bool;
      if keyBytes in cacheLeafModified {
        treeHasValue := !cacheLeafModified[keyBytes].Remove?;
      } else {
        treeHasValue := FlatKey(key) in db.store;
      }
      if !treeHasValue {
        return Success(());
      }
      cacheLeafModified := cacheLeafModified[keyBytes := Remove];
      RemoveFromTrie(db, key);
      return Success(());
    }

    /** Takes the leaf of a present key out of the trie. */
    method RemoveFromTrie(db: KeyValueDB, key: Bits)
      requires Sound(db.store) && |key| == maxHeight && Find(Root(), key).Some?
      modifies this`rootNode, this`nodes, this`nextKey, this`deathRow, this`shape
      ensures Sound(db.store) && Root() == TrieDelete(old(Root()).value, key)
      ensures old(Unhashed(db.store)) ==> Unhashed(db.store)
      ensures old(Hashed()) ==>
                var d := LastBranch(old(Root()).value, key);
                && HashesKept(H, old(Root()), Root(), key, d, old(PassesUnmarked(key, d)), Hashed())
                && (d > 0 ==> RootMark() == old(RootMark()))
    {
      hide Denote, Canonical, Holds, Refers, HoldsTop, At, NoLeak, Coherent, TreeInv, Reached,
           Slots, Placed, Typed, Lookup, TrieDelete, EndPath, HashesChange, Unmarked, TopHash, LastBranch;
      var iter := new MerkleTreeIterator(this, db);
      iter.TraverseTo(null, key);
      ghost var d := LastBranch(Root().value, key);
      assert PassesUnmarked(key, d) <==> old(PassesUnmarked(key, d));
      RemoveAtNode(db, key, iter.currentNodesHeights, iter.depth);
    }

    /** Removes the leaf below the node its seek ended at. */
    method RemoveAtNode(db: KeyValueDB, key: Bits, foundNodes: seq<(ArenaKey, nat)>, ghost n: nat)
      requires Sound(db.store) && |key| == maxHeight && Find(Root(), key).Some?
      requires shape.Some? && IsEnd(shape.value, key, n)
      requires foundNodes == TraceTo(shape.value, 0, key, n) + [(At(shape.value, key, n).at.key, n)]
      modifies this`rootNode, this`nodes, this`deathRow, this`shape
      ensures Sound(db.store) && Root() == TrieDelete(old(Root()).value, key)
      ensures old(Unhashed(db.store)) ==> Unhashed(db.store)
      ensures old(Hashed()) ==>
                var d := LastBranch(old(Root()).value, key);
                && HashesKept(H, old(Root()), Root(), key, d, old(PassesUnmarked(key, d)), Hashed())
                && (d > 0 ==> RootMark() == old(RootMark()))
    {
      hide Denote, Canonical, Holds, Refers, HoldsTop, At, TraceTo, NoLeak, Coherent, TreeInv, Reached, BelowStem,
           Slots, Placed, Typed, Lookup, TrieDelete, Graft, EndPath, Toward, Doomed, NodeKey, HashesStay,
           HashesChange, Unmarked, TopHash, LastBranch;
      var pathNodes := foundNodes;
      var lastBinaryPath := key;
      ghost var a, s := shape.value, Arena(db.store);
      ghost var sub := At(a, key, n);
      ReadNode(H, maxHeight, a, rootNode, s, nextKey, key, n, sub);
      // an edge down to the leaf goes with it
      var (nodeId, _) := pathNodes[|pathNodes| - 1];
      var node := nodes[nodeId];
      DeletePoint(H, maxHeight, a, rootNode, s, nextKey, key, n, sub, node);
      ghost var m := n;
      assert key[..|key|] == key;
      match node {
        case Binary(_, _, _, _) =>
        case Edge(_, _, path, _) =>
          lastBinaryPath := lastBinaryPath[..|lastBinaryPath| - |path|];
          deathRow := deathRow + {NodeKey(lastBinaryPath)};
          nodes := nodes - {nodeId};
          pathNodes := pathNodes[..|pathNodes| - 1];
          if n > 0 {
            BranchPoint(H, maxHeight, a, rootNode, s, nextKey, key, n, sub);
            m := n - 1;
          } else {
            NoWalk(a, 0, key, a);
          }
      }
      if pathNodes == [] {
        // that edge was the root: nothing is left
        LastLeaf(H, maxHeight, a, rootNode, s, nextKey, key);
        if rootNode.Some? && rootNode.value.Loaded? {
          nodes := nodes - {rootNode.value.key};
        }
        deathRow := deathRow + {NodeKey([])};
        ghost var loaded := rootNode;
        rootNode := Some(RootHandle.Empty);
        shape := None;
        EmptiedInv(H, maxHeight, a, loaded, s, nextKey, key, Arena(db.store));
        NoBranchLeft(Denote(a), key);
        NothingPassed(H, Denote(a), key);
      } else {
        assert lastBinaryPath == key[..m + 1];
        assert pathNodes == TraceTo(a, 0, key, m) + [(At(a, key, m).at.key, m)];
        var (branchId, _) := pathNodes[|pathNodes| - 1];
        var parentId := if |pathNodes| >= 2 then Some(pathNodes[|pathNodes| - 2].0) else None;
        CollapseBranch(db, key, branchId, parentId, lastBinaryPath, a, s, m);
        if Coherent(H, a, s.nodes) { StayIsKept(H, a, shape.value, key, m, s.nodes, nodes); }
      }
    }

    /** Turns the branch above a deleted leaf into an edge to its other child, merged with the edges around it. */
    method CollapseBranch(db: KeyValueDB, key: Bits, branchId: ArenaKey, parentId: Option<ArenaKey>,
            lastBinaryPath: Bits, ghost a: Shape, ghost s: Store, ghost n: nat)
      requires TreeInv(H, maxHeight, Some(a), rootNode, s, nextKey) && Typed(db.store, maxHeight) && s.db == db.store
      requires shape == Some(a) && |key| == maxHeight && Reached(a, key, n) && n < |key|
               && lastBinaryPath == key[..n + 1]
      requires var br := At(a, key, n);
               && br.BranchAt? && InArena(br) && br.at.key == branchId && Doomed(Toward(br, key[n..]), key[n..][1..])
               && nodes == s.nodes - Slots(Toward(br, key[n..]))
               && deathRow == s.dead + (if Toward(br, key[n..]).StemAt? then {NodeKey(key[..n + 1])} else {})
      requires parentId == ParentId(TraceTo(a, 0, key, n))
      requires forall e :: e in deathRow ==> e.NodeEntry?
      modifies this`nodes, this`deathRow, this`shape
      ensures Sound(db.store) && Root() == TrieDelete(Denote(a), key)
      ensures old(Unhashed(db.store)) ==> Unhashed(db.store)
      ensures shape.Some? && (Coherent(H, a, s.nodes) ==>
                && LastBranch(Denote(a), key) == n
                && HashesStay(H, a, shape.value, key, n, s.nodes, nodes)
                && (n > 0 ==> RootMark() == TopHash(H, a, s.nodes)))
    {
      hide Denote, Canonical, Holds, Refers, HoldsTop, At, TraceTo, NoLeak, Coherent, TreeInv, Reached, BelowStem,
           Slots, Placed, Typed, Lookup, TrieDelete, Graft, Doomed, NodeKey, Merged, MergedStore, ChildRecord, Pruned,
           SurvivorPath, SurvivorChild, CollapsedShape;
      ghost var br, rest := At(a, key, n), key[n..];
      ghost var mid := Arena(db.store);
      assert rest[0] == key[n];
      SurvivorMerged(H, maxHeight, a, rootNode, s, nextKey, key, n, br, mid);
      ParentPoint(H, maxHeight, a, rootNode, s, nextKey, key, n);
      var binary := nodes[branchId];
      var direction := !key[binary.height];
      var path := lastBinaryPath[..|lastBinaryPath| - 1] + [direction];
      assert path == key[..n] + [!key[n]];
      // one bit to the sibling, plus the sibling's own bits where it is an edge
      var newEdge := MergeEdges(Node.Edge(None, binary.height, [direction], binary.GetChild(direction)), db, path);
      ghost var pruned := Arena(db.store);
      CollapsedInv(H, maxHeight, a, rootNode, s, nextKey, key, n, br, pruned, newEdge);
      if Coherent(H, a, s.nodes) {
        CollapsedHashes(H, maxHeight, a, rootNode, s, nextKey, key, n, br, pruned, newEdge);
      }
      // an edge above absorbs the new one
      if parentId.Some? && nodes[parentId.value].Edge? {
        var parent := nodes[parentId.value];
        nodes := nodes[parentId.value := parent.(path := parent.path + newEdge.path, child := newEdge.child)];
        deathRow := deathRow + {NodeKey(path[..|path| - 1])};
        nodes := nodes - {branchId};
        assert path[..|path| - 1] == key[..n];
      } else {
        nodes := nodes[branchId := newEdge];
      }
      shape := Some(CollapsedShape(a, key, n));
    }
  }

  /** Records every node visited during seeks as a proof node under its hash. */
  class ProofVisitor {
    var proof: MultiProof

    constructor ()
      ensures proof == map[]
    {
      proof := map[];
    }

    method VisitNode(tree: MerkleTree, nodeId: ArenaKey, ghost db: Database, ghost a: Shape, ghost p: Bits)
      requires HandleOf(tree.H, a) == InMemory(nodeId) && Placed(a) && Holds(tree.H, a, p, tree.Arena(db))
      modifies this, tree`nodes
      ensures OnlyHashes(old(tree.nodes), tree.nodes, Slots(a)) && HashesRemain(old(tree.nodes), tree.nodes)
      ensures nodeId in tree.nodes && tree.nodes[nodeId].hash.Some?
      ensures old(proof).Keys <= proof.Keys
      ensures old(Coherent(tree.H, a, tree.nodes)) ==>
                && Coherent(tree.H, a, tree.nodes)
                && proof == old(proof)[Tries.Hash(tree.H, Denote(a)) := ProofNodeOf(tree.H, Denote(a))]
    {
      ghost var H := tree.H;
      ghost var s0 := tree.Arena(db);
      var proofNode: ProofNode;
      match tree.nodes[nodeId] {
        case Binary(_, _, left, right) =>
          var leftHash := tree.GetOrComputeNodeHash(left, db, a.left, p + [false]);
          ghost var s1 := tree.Arena(db);
          SiblingHashed(H, a, p, s0, s1);
          var rightHash := tree.GetOrComputeNodeHash(right, db, a.right, p + [true]);
          if Coherent(H, a, s0.nodes) { CoherentFrame(H, a.left, s1.nodes, tree.nodes); }
          proofNode := ProofNode.Binary(leftHash, rightHash);
        case Edge(_, _, path, child) =>
          var childHash := tree.GetOrComputeNodeHash(child, db, a.child, p + path);
          proofNode := ProofNode.Edge(childHash, path);
      }
      HoldsFrame(H, a, p, s0, tree.Arena(db));
      var hash := tree.GetOrComputeNodeHash(InMemory(nodeId), db, a, p);
      proof := proof[hash := proofNode];
    }
  }

  class MerkleTreeIterator {
    const tree: MerkleTree
    const db: KeyValueDB
    var currentPath: Bits
    /** Arena key and height of every node on the current path. */
    var currentNodesHeights: seq<(ArenaKey, nat)>
    var leafHash: Option<Felt>
    /** The key last sought, and the height of the node its seek ended at. */
    ghost var last: Option<Bits>
    ghost var depth: nat

    constructor (tree: MerkleTree, db: KeyValueDB)
      ensures this.tree == tree && this.db == db
      ensures AtRest() && last.None?
    {
      this.tree, this.db := tree, db;
      currentPath := [];
      currentNodesHeights := [];
      leafHash := None;
      last := None;
    }

    /** The iterator stands at the node at bit n of the key, about to read it. */
    ghost predicate StandsAt(key: Bits, n: nat)
      reads this, tree
    {
      && tree.shape.Some? && n <= |key|
      && Reached(tree.shape.value, key, n) && InArena(At(tree.shape.value, key, n))
      && currentPath == key[..n] && currentNodesHeights == TraceTo(tree.shape.value, 0, key, n)
    }

    /** The iterator has come to the end of the key at the node at height n. */
    ghost predicate EndsAt(key: Bits, n: nat)
      reads this, tree
    {
      && tree.shape.Some?
      && IsEnd(tree.shape.value, key, n)
      && currentNodesHeights == TraceTo(tree.shape.value, 0, key, n) + [(At(tree.shape.value, key, n).at.key, n)]
      && currentPath == EndPath(tree.shape.value, key, n)
      && leafHash == Find(tree.Root(), key)
    }

    /** Where a completed seek leaves the iterator. */
    ghost predicate AtRest()
      reads this, tree
    {
      if last.None? || tree.shape.None? then currentPath == [] && currentNodesHeights == [] && leafHash == None
      else EndsAt(last.value, depth)
    }

    /** A completed seek on a non-empty trie shows the tip, and the nodes on the way to it. */
    lemma {:induction false} RestShows(key: Bits)
      requires tree.Sound(db.store) && |key| == tree.maxHeight && AtRest() && last == Some(key)
      ensures tree.Root().Some? ==>
                && Tip(tree.Root().value, key, currentPath)
                && OnTheWay(tree.nodes, tree.rootNode, currentNodesHeights, currentPath)
      ensures tree.Root().None? ==> currentPath == [] && currentNodesHeights == []
    {
      hide Tip, IsEnd, At, TraceTo, EndPath, Lookup, OnTheWay, Canonical, Denote;
      if tree.shape.Some? {
        ghost var a := tree.shape.value;
        InvCanonical(tree.H, tree.maxHeight, a, tree.rootNode, tree.Arena(db.store), tree.nextKey);
        EndTip(a, key, depth);
        EndOnTheWay(tree.H, tree.maxHeight, a, tree.rootNode, tree.Arena(db.store), tree.nextKey, key, depth);
      }
    }

    /** Reads one node: either the seek ends at it, or its child is loaded and comes next. */
    method TraverseOne(nodeId: ArenaKey, height: nat, key: Bits) returns (r: Option<ArenaKey>)
      requires tree.Sound(db.store) && |key| == tree.maxHeight
      requires StandsAt(key, height) && nodeId == At(tree.shape.value, key, height).at.key
      modifies this`currentPath, this`currentNodesHeights, this`leafHash, tree`nodes, tree`nextKey, tree`shape
      ensures tree.Sound(db.store) && tree.Root() == old(tree.Root())
      ensures r.None? ==> EndsAt(key, height) && tree.shape == old(tree.shape)
      ensures r.Some? ==> height < |currentPath| && StandsAt(key, |currentPath|)
      ensures r.Some? ==> r.value == At(tree.shape.value, key, |currentPath|).at.key
      ensures currentNodesHeights == old(currentNodesHeights) + [(nodeId, height)]
      ensures old(tree.nodes).Keys <= tree.nodes.Keys <= old(tree.nodes).Keys + if r.Some? then {r.value} else {}
      ensures r.Some? ==> Reached(tree.shape.value, key, height) &&
                          |currentPath| == height + StepLen(At(tree.shape.value, key, height))
      ensures old(tree.Hashed()) ==> tree.Hashed()
      ensures old(tree.Unhashed(db.store)) ==> tree.Unhashed(db.store)
      ensures forall d :: tree.PassesUnmarked(key, d) <==> old(tree.PassesUnmarked(key, d))
      ensures tree.RootMark() == old(tree.RootMark())
      ensures old(tree.HasWalked(key)) ==> tree.shape == old(tree.shape)
    {
      hide Denote, Canonical, Holds, Refers, HoldsTop, Graft, At, TraceTo, NoLeak, Coherent, TreeInv, Reached,
           Slots, Placed, Typed, DbNode, NodeKey, Lookup, EndPath, IsEnd, Advanced, Unmarked, TopHash, Walked;
      ghost var a := tree.shape.value;
      ghost var sub := At(a, key, height);
      ReadNode(tree.H, tree.maxHeight, a, tree.rootNode, tree.Arena(db.store), tree.nextKey, key, height, sub);
      currentNodesHeights := currentNodesHeights + [(nodeId, |currentPath|)];
      var node := tree.nodes[nodeId];
      var handle: NodeHandle;
      var pathMatches: bool;
      match node {
        case Binary(_, _, _, _) =>
          var nextDirection := key[|currentPath|];
          currentPath := currentPath + [nextDirection];
          handle, pathMatches := node.GetChild(nextDirection), true;
        case Edge(_, _, path, child) =>
          currentPath := currentPath + path;
          handle, pathMatches := child, node.PathMatches(key, height);
      }
      ReadChild(tree.H, tree.maxHeight, a, tree.rootNode, tree.Arena(db.store), tree.nextKey, key, height, sub, node,
        pathMatches);
      if !pathMatches || |currentPath| >= |key| {
        leafHash := if pathMatches && |currentPath| == |key| then handle.AsHash() else None;
        return None;
      }
      ghost var s, free := tree.Arena(db.store), tree.nextKey;
      NoDbNode(db.store, currentPath);
      var loaded := tree.LoadNodeHandle(db, handle, currentPath);
      assert loaded.Success?;
      var childKey := loaded.value;
      // the parent now points into the arena
      PointToUpdate(tree.nodes, nodeId, key[height..], childKey);
      assert key[height..][0] == key[height];
      var parent := tree.nodes[nodeId];
      assert parent == node;
      match parent {
        case Binary(_, _, _, _) =>
          assert currentPath[|currentPath| - 1] == key[height];
          parent := parent.SetChild(currentPath[|currentPath| - 1], InMemory(childKey));
        case Edge(_, _, _, _) =>
          parent := parent.(child := InMemory(childKey));
      }
      tree.nodes := tree.nodes[nodeId := parent];
      tree.shape := Some(Advanced(a, key, height, free));
      tree.OneStepOn(db.store, a, s, free, key, height, sub);
      return Some(childKey);
    }

    /** The visitor's proof has every node above bit n of the key; it has nothing but nodes of the trie. */
    ghost predicate Recorded(visitor: ProofVisitor?, key: Bits, n: nat)
      reads this, tree, visitor
    {
      visitor != null && tree.Root().Some? ==>
        Honest(tree.H, tree.Root().value, visitor.proof) && Covers(tree.H, tree.Root().value, key, n, visitor.proof)
    }

    /** What was loaded are nodes on the way, listed or about to be. */
    ghost predicate LoadedWay(before: set<ArenaKey>, next: Option<ArenaKey>)
      reads this, tree
    {
      && before <= tree.nodes.Keys
      && forall id :: id in tree.nodes ==> id in before || next == Some(id) || Listed(id)
    }

    ghost predicate Listed(id: ArenaKey)
      reads this
    {
      exists i :: 0 <= i < |currentNodesHeights| && currentNodesHeights[i].0 == id
    }

    /** What came to the proof are nodes on the key's way. */
    ghost predicate AddsWay(before: MultiProof, after: MultiProof, key: Bits)
      reads this, tree
    {
      forall f :: f in after ==> f in before || (tree.Root().Some? && OnWay(tree.H, tree.Root().value, key, f))
    }

    /** The visitor has been at every node the iterator's last seek passed. */
    ghost predicate Recording(visitor: ProofVisitor?)
      reads this, tree, visitor
    {
      if last.Some? then Recorded(visitor, last.value, |last.value|) else Recorded(visitor, [], 0)
    }

    /** Shows the node the iterator stands at to the visitor. */
    method Visit(visitor: ProofVisitor, nodeId: ArenaKey, height: nat, key: Bits)
      requires tree.Sound(db.store) && |key| == tree.maxHeight
      requires StandsAt(key, height) && nodeId == At(tree.shape.value, key, height).at.key
      modifies visitor, tree`nodes
      ensures tree.Sound(db.store)
      ensures old(tree.Hashed()) ==> tree.Hashed()
      ensures old(tree.Hashed() && Recorded(visitor, key, height)) ==> Recorded(visitor, key, height + 1)
      ensures old(tree.Hashed()) ==> AddsWay(old(visitor.proof), visitor.proof, key)
      ensures tree.nodes.Keys == old(tree.nodes).Keys
      ensures old(visitor.proof).Keys <= visitor.proof.Keys
      ensures height == 0 || old(tree.RootMark()).Some? ==> tree.RootMark().Some?
    {
      hide Denote, Canonical, Holds, Refers, HoldsTop, At, TraceTo, NoLeak, Coherent, TreeInv, Reached, Covers,
           Honest, Slots;
      ghost var a, s := tree.shape.value, tree.Arena(db.store);
      ghost var sub := At(a, key, height);
      StandsInTree(tree.H, tree.maxHeight, a, tree.rootNode, s, tree.nextKey, key, height);
      ReadNode(tree.H, tree.maxHeight, a, tree.rootNode, s, tree.nextKey, key, height, sub);
      visitor.VisitNode(tree, nodeId, db.store, sub, key[..height]);
      HashesInv(tree.H, tree.maxHeight, a, tree.rootNode, s, tree.nextKey, key, height, tree.Arena(db.store));
      ReachedBoundary(a, key, height);
      assert OnWay(tree.H, Denote(a), key, Tries.Hash(tree.H, Denote(sub)));
      if old(tree.Hashed() && Recorded(visitor, key, height)) {
        CoverVisit(tree.H, a, key, height, sub, old(visitor.proof), visitor.proof);
      }
      if height == 0 { NoWalk(a, 0, key, a); }
    }

    /** What is recorded up to the node just read is recorded up to the next one, or for the whole key at its end. */
    lemma {:induction false} StepCovered(visitor: ProofVisitor?, key: Bits, height: nat)
      requires tree.Sound(db.store) && |key| == tree.maxHeight && tree.shape.Some?
      requires Reached(tree.shape.value, key, height)
      ensures Recorded(visitor, key, height + 1) ==>
                && Recorded(visitor, key, height + StepLen(At(tree.shape.value, key, height)))
                && (IsEnd(tree.shape.value, key, height) ==> Recorded(visitor, key, |key|))
    {
      InvCanonical(tree.H, tree.maxHeight, tree.shape.value, tree.rootNode, tree.Arena(db.store), tree.nextKey);
      if visitor != null && Recorded(visitor, key, height + 1) {
        CoverStep(tree.H, tree.shape.value, key, height, visitor.proof);
      }
    }

    /** What an earlier seek recorded up to a shared node is recorded for the new key as well. */
    lemma {:induction false} ResumeCovered(visitor: ProofVisitor?, j: Bits, key: Bits, height: nat)
      requires height < |j| && height <= |key| && j[..height] == key[..height]
      ensures Recorded(visitor, j, |j|) ==> Recorded(visitor, key, height + 1)
    {
      if visitor != null && tree.Root().Some? && Recorded(visitor, j, |j|) {
        CoverSamePrefix(tree.H, tree.Root().value, j, key, |j|, height, visitor.proof);
      }
    }

    lemma {:induction false} StartCovered(visitor: ProofVisitor?, j: Bits, n: nat, key: Bits)
      ensures Recorded(visitor, j, n) ==> Recorded(visitor, key, 0)
    {
    }

    /** Keeps the part of the current path that the key shares, and steps off its last node. */
    method Truncate(key: Bits) returns (popped: Option<(ArenaKey, nat)>)
      requires tree.Sound(db.store) && |key| == tree.maxHeight
      requires AtRest() && (last.Some? ==> |last.value| == |key|)
      modifies this`currentPath, this`currentNodesHeights
      ensures popped == LastBelow(old(currentNodesHeights), CommonLen(old(currentPath), key))
      ensures popped.None? ==> currentPath == [] && currentNodesHeights == []
      ensures forall e :: e in old(currentNodesHeights) && e.1 < CommonLen(old(currentPath), key) ==>
                popped.Some? && e.1 <= popped.value.1
      ensures popped.Some? ==>
                var (nodeId, height) := popped.value;
                && StandsAt(key, height) && nodeId == At(tree.shape.value, key, height).at.key && tree.rootNode.Some?
                && last.Some? && height < |key| && last.value[..height] == key[..height]
    {
      hide Denote, Canonical, Holds, Refers, HoldsTop, At, TraceTo, NoLeak, Coherent, TreeInv, Reached,
           Slots, Placed, Typed, Lookup, EndPath, IsEnd, CommonLen, PartitionPoint;
      var sharedPrefixLen := CommonLen(currentPath, key);
      var nodesNewLen := if sharedPrefixLen == 0 then 0 else PartitionPoint(currentNodesHeights, sharedPrefixLen);
      ghost var list, path := currentNodesHeights, currentPath;
      if list != [] { LastBelowGreatest(tree.shape.value, last.value, depth, list, sharedPrefixLen); }
      currentNodesHeights := currentNodesHeights[..nodesNewLen];
      currentPath := if |currentPath| <= |key| then currentPath else currentPath[..|key|];
      if currentNodesHeights != [] {
        var (nodeId, height) := currentNodesHeights[|currentNodesHeights| - 1];
        currentNodesHeights := currentNodesHeights[..|currentNodesHeights| - 1];
        ghost var a := tree.shape.value;
        ResumePoint(a, last.value, depth, key, list, path, sharedPrefixLen, nodesNewLen - 1);
        EndHasRoot(tree.H, tree.maxHeight, a, tree.rootNode, tree.Arena(db.store), tree.nextKey, last.value, depth);
        currentPath := currentPath[..height];
        return Some((nodeId, height));
      } else {
        currentPath := [];
        return None;
      }
    }

    /** Resumes at the last node kept, or at the root. */
    method Resume(visitor: ProofVisitor?, key: Bits) returns (nextToVisit: Option<ArenaKey>)
      requires tree.Sound(db.store) && |key| == tree.maxHeight
      requires AtRest() && (last.Some? ==> |last.value| == |key|)
      modifies this, tree`rootNode, tree`nodes, tree`nextKey, tree`shape
      ensures tree.Sound(db.store) && tree.Root() == old(tree.Root()) && tree.rootNode.Some?
      ensures old(tree.Hashed()) ==> tree.Hashed()
      ensures old(tree.Unhashed(db.store)) ==> tree.Unhashed(db.store)
      ensures forall d :: tree.PassesUnmarked(key, d) <==> old(tree.PassesUnmarked(key, d))
      ensures tree.RootMark() == old(tree.RootMark())
      ensures old(tree.HasWalked(key)) ==> tree.shape == old(tree.shape)
      ensures old(last).None? && tree.Root().Some? ==> nextToVisit.Some? && currentPath == []
      ensures last == Some(key)
      ensures LoadedWay(old(tree.nodes).Keys, nextToVisit)
      ensures if nextToVisit.Some? then
                StandsAt(key, |currentPath|) && nextToVisit.value == At(tree.shape.value, key, |currentPath|).at.key
              else AtRest()
      ensures old(Recording(visitor)) ==> Recorded(visitor, key, if nextToVisit.Some? then |currentPath| else |key|)
    {
      hide Denote, Canonical, Holds, Refers, HoldsTop, At, TraceTo, NoLeak, Coherent, TreeInv, Reached, Covers, Honest,
           Slots, Placed, Typed, Lookup, EndPath, IsEnd, Unmarked, TopHash, Walked, LoadedWay;
      tree.WalkedRoot(db.store, key);
      ghost var loaded := tree.nodes.Keys;
      var popped := Truncate(key);
      match popped {
        case Some((nodeId, height)) =>
          ResumeCovered(visitor, last.value, key, height);
          last, depth := Some(key), height;
          nextToVisit := TraverseOne(nodeId, height, key);
          StepCovered(visitor, key, height);
        case None =>
          StartCovered(visitor, if last.Some? then last.value else [], if last.Some? then |last.value| else 0, key);
          last := Some(key);
          nextToVisit := tree.LoadRootNode(db);
          if nextToVisit.None? {
            leafHash := None;
          } else {
            StartAtRoot(tree.H, tree.maxHeight, tree.shape.value, nextToVisit.value, tree.Arena(db.store),
              tree.nextKey, key);
          }
      }
      JustLoaded(loaded, nextToVisit);
    }

    lemma {:induction false} JustLoaded(before: set<ArenaKey>, next: Option<ArenaKey>)
      requires before <= tree.nodes.Keys <= before + if next.Some? then {next.value} else {}
      ensures LoadedWay(before, next)
    {
      assert forall id :: id in tree.nodes ==> id in tree.nodes.Keys;
    }

    /** A node read is listed. */
    lemma {:induction false} StillListed(list: seq<(ArenaKey, nat)>, nodes: set<ArenaKey>, nodeId: ArenaKey,
            height: nat, r: Option<ArenaKey>)
      requires currentNodesHeights == list + [(nodeId, height)]
      requires nodes <= tree.nodes.Keys <= nodes + if r.Some? then {r.value} else {}
      ensures forall before: set<ArenaKey> ::
                before <= nodes && (forall id :: id in nodes ==>
                                      id in before || nodeId == id || exists i :: 0 <= i < |list| && list[i].0 == id)
                ==> LoadedWay(before, r)
    {
      assert currentNodesHeights[|list|].0 == nodeId;
      forall i | 0 <= i < |list| ensures Listed(list[i].0) { assert currentNodesHeights[i] == list[i]; }
      assert forall id :: id in tree.nodes ==> id in tree.nodes.Keys;
    }

    /** One round of a seek: the node is shown to the visitor, if there is one, and read. */
    method VisitAndTraverse(visitor: ProofVisitor?, nodeId: ArenaKey, height: nat, key: Bits)
      returns (r: Option<ArenaKey>)
      requires tree.Sound(db.store) && |key| == tree.maxHeight && last == Some(key)
      requires StandsAt(key, height) && nodeId == At(tree.shape.value, key, height).at.key
      modifies this`currentPath, this`currentNodesHeights, this`leafHash, this`depth
      modifies tree`nodes, tree`nextKey, tree`shape, visitor
      ensures tree.Sound(db.store) && tree.Root() == old(tree.Root())
      ensures old(tree.Hashed()) ==> tree.Hashed()
      ensures visitor == null && old(tree.Unhashed(db.store)) ==> tree.Unhashed(db.store)
      ensures visitor == null ==> forall d :: tree.PassesUnmarked(key, d) <==> old(tree.PassesUnmarked(key, d))
      ensures visitor == null ==> tree.RootMark() == old(tree.RootMark())
      ensures old(tree.RootMark()).Some? || (visitor != null && height == 0) ==> tree.RootMark().Some?
      ensures old(tree.HasWalked(key)) ==> tree.shape == old(tree.shape)
      ensures forall before :: old(LoadedWay(before, Some(nodeId))) ==> LoadedWay(before, r)
      ensures if r.Some? then
                height < |currentPath| && StandsAt(key, |currentPath|) &&
                r.value == At(tree.shape.value, key, |currentPath|).at.key
              else AtRest()
      ensures old((visitor != null ==> tree.Hashed()) && Recorded(visitor, key, height)) ==>
                Recorded(visitor, key, if r.Some? then |currentPath| else |key|)
      ensures visitor != null ==> old(visitor.proof).Keys <= visitor.proof.Keys
      ensures visitor != null && old(tree.Hashed()) ==> AddsWay(old(visitor.proof), visitor.proof, key)
    {
      hide Denote, Canonical, Holds, Refers, HoldsTop, At, TraceTo, NoLeak, Coherent, TreeInv, Reached, Covers, Honest,
           Slots, Placed, Typed, Lookup, EndPath, IsEnd, Unmarked, TopHash, Walked;
      ghost var list, nodes := currentNodesHeights, tree.nodes.Keys;
      if visitor != null { Visit(visitor, nodeId, height, key); }
      r := TraverseOne(nodeId, height, key);
      depth := height;
      StepCovered(visitor, key, height);
      StillListed(list, nodes, nodeId, height, r);
    }

    /** Seeks the key: keeps what the current path shares with it, then walks on, visiting every node newly reached.
        Wherever the iterator was, it ends exactly where a walk from the root would. */
    method TraverseTo(visitor: ProofVisitor?, key: Bits)
      requires tree.Sound(db.store) && |key| == tree.maxHeight
      requires AtRest() && (last.Some? ==> |last.value| == |key|)
      modifies this, tree`rootNode, tree`nodes, tree`nextKey, tree`shape, visitor
      ensures tree.Sound(db.store) && tree.Root() == old(tree.Root()) && tree.rootNode.Some?
      ensures old(tree.Hashed()) ==> tree.Hashed()
      ensures visitor == null && old(tree.Unhashed(db.store)) ==> tree.Unhashed(db.store)
      ensures visitor == null ==> forall d :: tree.PassesUnmarked(key, d) <==> old(tree.PassesUnmarked(key, d))
      ensures visitor == null ==> tree.RootMark() == old(tree.RootMark())
      ensures old(tree.RootMark().Some?) || (visitor != null && old(last).None?) ==> tree.RootMark().Some?
      ensures old(tree.HasWalked(key)) ==> tree.shape == old(tree.shape)
      ensures AtRest() && last == Some(key) && leafHash == Find(tree.Root(), key)
      ensures tree.Root().Some? ==>
                && Tip(tree.Root().value, key, currentPath)
                && OnTheWay(tree.nodes, tree.rootNode, currentNodesHeights, currentPath)
      ensures tree.Root().None? ==> currentPath == [] && currentNodesHeights == []
      ensures LoadedWay(old(tree.nodes).Keys, None)
      ensures old(Recording(visitor) && (visitor != null ==> tree.Hashed())) ==> Recording(visitor)
      ensures visitor != null ==> old(visitor.proof).Keys <= visitor.proof.Keys
      ensures visitor != null && old(tree.Hashed()) ==> AddsWay(old(visitor.proof), visitor.proof, key)
      ensures visitor != null && tree.Root().None? ==> visitor.proof == old(visitor.proof)
    {
      hide Denote, Canonical, Holds, Refers, HoldsTop, At, TraceTo, NoLeak, Coherent, TreeInv, Reached, Covers, Honest,
           Slots, Placed, Typed, Lookup, EndPath, IsEnd, Unmarked, TopHash, Walked, Tip, OnTheWay;
      ghost var recording := Recording(visitor) && (visitor != null ==> tree.Hashed());
      var nextToVisit := Resume(visitor, key);
      while nextToVisit.Some?
        invariant tree.Sound(db.store) && tree.Root() == old(tree.Root()) && tree.rootNode.Some?
        invariant old(tree.Hashed()) ==> tree.Hashed()
        invariant visitor == null && old(tree.Unhashed(db.store)) ==> tree.Unhashed(db.store)
        invariant visitor == null ==> forall d :: tree.PassesUnmarked(key, d) <==> old(tree.PassesUnmarked(key, d))
        invariant visitor == null ==> tree.RootMark() == old(tree.RootMark())
        invariant old(tree.RootMark().Some?) ==> tree.RootMark().Some?
        invariant visitor != null && old(last).None? && tree.Root().Some? ==>
                    tree.RootMark().Some? || (nextToVisit.Some? && currentPath == [])
        invariant old(tree.HasWalked(key)) ==> tree.shape == old(tree.shape)
        invariant last == Some(key) && LoadedWay(old(tree.nodes).Keys, nextToVisit)
        invariant if nextToVisit.Some? then
                    StandsAt(key, |currentPath|) && nextToVisit.value == At(tree.shape.value, key, |currentPath|).at.key
                  else AtRest()
        invariant recording ==> Recorded(visitor, key, if nextToVisit.Some? then |currentPath| else |key|)
        invariant visitor != null ==> old(visitor.proof).Keys <= visitor.proof.Keys
        invariant visitor != null && old(tree.Hashed()) ==> AddsWay(old(visitor.proof), visitor.proof, key)
        invariant visitor != null && tree.Root().None? ==> visitor.proof == old(visitor.proof)
        decreases if nextToVisit.Some? then |key| + 1 - |currentPath| else 0
      {
        nextToVisit := VisitAndTraverse(visitor, nextToVisit.value, |currentPath|, key);
      }
      RestShows(key);
    }
  }

  /** However two iterators came to their last key, if it is the same they stand at the same place: a resumed seek
      ends as a fresh one does. */
  lemma {:induction false} SeeksAgree(i: MerkleTreeIterator, j: MerkleTreeIterator)
    requires i.tree == j.tree && i.AtRest() && j.AtRest() && i.last.Some? && i.last == j.last
    ensures i.currentPath == j.currentPath && i.currentNodesHeights == j.currentNodesHeights && i.leafHash == j.leafHash
  {
    hide Reached, At, TraceTo, EndPath, Lookup, IsEnd;
    if i.tree.shape.Some? { EndUnique(i.tree.shape.value, i.last.value, i.depth, j.depth); }
  }
}
