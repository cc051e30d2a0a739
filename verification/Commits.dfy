/** What a commit writes, and why the database alone stands for the tree afterwards. */
module Commits {
  import opened Wrappers
  import opened BitStrings
  import opened Felts
  import opened PathCodec
  import opened Nodes
  import opened Tries
  import opened Shapes
  import opened TreeState

  type Updates = map<TrieKey, InsertOrRemove<Stored>>

  // ----- the two traversals -----

  /** One hash per loaded node, children before parents, left before right. */
  function HashList(H: StarkHash, a: Shape): seq<Felt> {
    if !InArena(a) then [] else
      (match a
       case BranchAt(_, l, r) => HashList(H, l) + HashList(H, r)
       case StemAt(_, _, c) => HashList(H, c)) + [Tries.Hash(H, Denote(a))]
  }

  /** The hashes of a node: its children's, then its own. */
  lemma {:induction false} AppendHashes(H: StarkHash, a: Shape, hashes: seq<Felt>)
    requires InArena(a)
    ensures a.BranchAt? ==>
              && hashes + HashList(H, a) == hashes + HashList(H, a.left) + HashList(H, a.right) +
                 [Tries.Hash(H, Denote(a))]
              && [] + HashList(H, a.right) == HashList(H, a.right)
    ensures a.StemAt? ==> hashes + HashList(H, a) == hashes + HashList(H, a.child) + [Tries.Hash(H, Denote(a))]
  {
    var own := [Tries.Hash(H, Denote(a))];
    hide Denote, Tries.Hash;
    if a.BranchAt? {
      var l, r := HashList(H, a.left), HashList(H, a.right);
      assert HashList(H, a) == l + r + own;
      hide HashList;
      assert hashes + (l + r + own) == hashes + l + r + own;
    } else {
      var c := HashList(H, a.child);
      assert HashList(H, a) == c + own;
      hide HashList;
      assert hashes + (c + own) == hashes + c + own;
    }
  }

  lemma {:induction false} DisjointSizes(a: set<ArenaKey>, b: set<ArenaKey>, own: set<ArenaKey>)
    requires a !! b && own !! a + b
    ensures |own + (a + b)| == |own| + |a| + |b|
  {
  }

  /** The order of the hashes: first those of the loaded nodes on the left, one for each, then those on the right, and
      the node's own last. */
  lemma {:induction false} HashListOrder(H: StarkHash, a: Shape, i: nat)
    requires Placed(a) && InArena(a) && a.BranchAt?
    ensures var n, m := |Slots(a.left)|, |Slots(a.right)|;
            && |HashList(H, a)| == n + m + 1 && |HashList(H, a.left)| == n && |HashList(H, a.right)| == m
            && (i < n ==> HashList(H, a)[i] == HashList(H, a.left)[i])
            && (n <= i < n + m ==> HashList(H, a)[i] == HashList(H, a.right)[i - n])
            && HashList(H, a)[n + m] == Tries.Hash(H, Denote(a))
  {
    hide HashList, Denote, Tries.Hash, Slots;
    HashListLength(H, a.left);
    HashListLength(H, a.right);
    AppendHashes(H, a, []);
    hide Placed;
    var l, r := HashList(H, a.left), HashList(H, a.right);
    assert [] + HashList(H, a) == HashList(H, a) && [] + l == l;
    InThree(l, r, Tries.Hash(H, Denote(a)), i);
  }

  lemma {:induction false} InThree(l: seq<Felt>, r: seq<Felt>, own: Felt, i: nat)
    ensures var s := l + r + [own];
            && |s| == |l| + |r| + 1 && s[|l| + |r|] == own
            && (i < |l| ==> s[i] == l[i]) && (|l| <= i < |l| + |r| ==> s[i] == r[i - |l|])
  {
  }

  /** The hash computation emits exactly one hash per arena slot. */
  lemma {:induction false} HashListLength(H: StarkHash, a: Shape)
    requires Placed(a)
    ensures |HashList(H, a)| == |Slots(a)|
  {
    hide Denote, Tries.Hash;
    match a
    case LeafAt(_) =>
    case BranchAt(at, l, r) =>
      HashListLength(H, l);
      HashListLength(H, r);
      DisjointSizes(Slots(l), Slots(r), OwnSlot(a));
      assert Slots(a) == OwnSlot(a) + (Slots(l) + Slots(r));
    case StemAt(at, _, c) =>
      HashListLength(H, c);
      DisjointSizes(Slots(c), {}, OwnSlot(a));
      assert Slots(a) == OwnSlot(a) + (Slots(c) + {});
  }

  /** The record a loaded node is stored as: its hash filled in, its children referred to by theirs. */
  function StoredNode(H: StarkHash, a: Shape, height: nat): Node
    requires !a.LeafAt?
  {
    var hash := Some(Tries.Hash(H, Denote(a)));
    if a.BranchAt? then
      Binary(hash, height, NodeHandle.Hash(Tries.Hash(H, Denote(a.left))),
        NodeHandle.Hash(Tries.Hash(H, Denote(a.right))))
    else Edge(hash, height, a.path, NodeHandle.Hash(Tries.Hash(H, Denote(a.child))))
  }

  /** The writes for the loaded nodes of a subtree at position p. */
  function Writes(H: StarkHash, a: Shape, p: Bits): Updates {
    if !InArena(a) then map[] else
      (match a
       case BranchAt(_, l, r) => Writes(H, l, p + [false]) + Writes(H, r, p + [true])
       case StemAt(_, q, c) => Writes(H, c, p + q))
      [NodeKey(p) := Insert(NodeValue(StoredNode(H, a, |p|)))]
  }

  /** The queue of a branch: the left child's hashes, the right child's, its own. */
  lemma {:induction false} BranchQueue(H: StarkHash, a: Shape, hashes: seq<Felt>)
    requires InArena(a) && a.BranchAt? && HashList(H, a) <= hashes
    ensures var l, r := HashList(H, a.left), HashList(H, a.right);
            && l <= hashes && r <= hashes[|l|..] && hashes[|l|..][|r|..] != []
            && hashes[|l|..][|r|..][0] == Tries.Hash(H, Denote(a))
            && hashes[|l|..][|r|..][1..] == hashes[|HashList(H, a)|..]
  {
    var l, r := HashList(H, a.left), HashList(H, a.right);
    assert hashes == l + r + [Tries.Hash(H, Denote(a))] + hashes[|HashList(H, a)|..];
  }

  lemma {:induction false} StemQueue(H: StarkHash, a: Shape, hashes: seq<Felt>)
    requires InArena(a) && a.StemAt? && HashList(H, a) <= hashes
    ensures var c := HashList(H, a.child);
            && c <= hashes && hashes[|c|..] != []
            && hashes[|c|..][0] == Tries.Hash(H, Denote(a)) && hashes[|c|..][1..] == hashes[|HashList(H, a)|..]
  {
    var c := HashList(H, a.child);
    assert hashes == c + [Tries.Hash(H, Denote(a))] + hashes[|HashList(H, a)|..];
  }

  lemma {:induction false} BranchWrites(H: StarkHash, a: Shape, p: Bits, updates: Updates)
    requires InArena(a) && a.BranchAt?
    ensures var below := updates + Writes(H, a.left, p + [false]) + Writes(H, a.right, p + [true]);
            below[NodeKey(p) := Insert(NodeValue(StoredNode(H, a, |p|)))] == updates + Writes(H, a, p)
  {
  }

  lemma {:induction false} StemWrites(H: StarkHash, a: Shape, p: Bits, updates: Updates)
    requires InArena(a) && a.StemAt?
    ensures var below := updates + Writes(H, a.child, p + a.path);
            below[NodeKey(p) := Insert(NodeValue(StoredNode(H, a, |p|)))] == updates + Writes(H, a, p)
  {
  }

  /** A child that is not loaded has nothing to commit. */
  lemma {:induction false} NothingLoaded(H: StarkHash, a: Shape, p: Bits)
    requires Placed(a) && !InArena(a)
    ensures Writes(H, a, p) == map[] && HashList(H, a) == [] && Slots(a) == {}
  {
  }

  lemma {:induction false} StepBelow(p: Bits, step: Bits, q: Bits)
    requires p + step <= q
    ensures p <= q && step <= q[|p|..] && q[|p|..][|step|..] == q[|p + step|..]
  {
  }

  /** Every write is at or below the position, under the key of its own position. */
  lemma {:induction false} WritesBelow(H: StarkHash, a: Shape, p: Bits, s: Store, e: TrieKey)
    requires Holds(H, a, p, s) && e in Writes(H, a, p)
    ensures p <= PathOf(e.bytes) && e == NodeKey(PathOf(e.bytes))
    ensures NodeAt(Denote(a), PathOf(e.bytes)[|p|..])
    ensures Writes(H, a, p)[e].Insert? && Writes(H, a, p)[e].value.NodeValue?
  {
    if e != NodeKey(p) {
      hide HoldsTop, NodeKey, PathOf, StoredNode;
      var q := PathOf(e.bytes);
      match a
      case BranchAt(_, l, r) =>
        var dir := e in Writes(H, r, p + [true]);
        WritesBelow(H, if dir then r else l, p + [dir], s, e);
        StepBelow(p, [dir], q);
        assert q[|p|..][0] == dir;
      case StemAt(_, path, c) =>
        WritesBelow(H, c, p + path, s, e);
        StepBelow(p, path, q);
    } else {
      HoldsShort(H, a, p, s);
    }
  }

  /** The same shape with every node on disk. */
  function Unloaded(a: Shape): Shape {
    match a
    case LeafAt(_) => a
    case BranchAt(_, l, r) => BranchAt(Disk, Unloaded(l), Unloaded(r))
    case StemAt(_, q, c) => StemAt(Disk, q, Unloaded(c))
  }

  function UnloadedShape(a: Option<Shape>): Option<Shape> {
    if a.None? then None else Some(Unloaded(a.value))
  }

  lemma {:induction false} UnloadedDenotes(a: Shape)
    ensures Denote(Unloaded(a)) == Denote(a) && Placed(Unloaded(a)) && Slots(Unloaded(a)) == {}
  {
    match a
    case LeafAt(_) =>
    case BranchAt(_, l, r) =>
      UnloadedDenotes(l);
      UnloadedDenotes(r);
    case StemAt(_, _, c) => UnloadedDenotes(c);
  }

  // ----- the updates and their effect -----

  function Removals(dead: set<TrieKey>): Updates {
    map k | k in dead :: Remove
  }

  function FlatUpdate(entry: InsertOrRemove<Felt>): InsertOrRemove<Stored> {
    if entry.Insert? then Insert(FeltValue(entry.value)) else Remove
  }

  function FlatUpdates(cache: Overlay): (u: Updates)
    ensures forall k :: k in u <==> k.FlatEntry? && k.bytes in cache
    ensures forall b :: b in cache ==> u[FlatEntry(b)] == FlatUpdate(cache[b])
  {
    map b | b in cache :: FlatEntry(b) := FlatUpdate(cache[b])
  }

  lemma {:induction false} FlatStep(cache: Overlay, remaining: set<ByteVec>, b: ByteVec, updates: Updates)
    requires b in remaining && remaining <= cache.Keys
    ensures (updates + FlatUpdates(cache - remaining))[FlatEntry(b) := FlatUpdate(cache[b])]
            == updates + FlatUpdates(cache - (remaining - {b}))
  {
    hide FlatUpdates;
    var before, after := FlatUpdates(cache - remaining), FlatUpdates(cache - (remaining - {b}));
    forall k | k in after && k != FlatEntry(b) ensures k in before && before[k] == after[k] {
      assert k == FlatEntry(k.bytes);
    }
    assert after == before[FlatEntry(b) := FlatUpdate(cache[b])];
  }

  lemma {:induction false} NoFlatUpdates(cache: Overlay, updates: Updates)
    ensures updates + FlatUpdates(cache - cache.Keys) == updates
  {
  }

  /** The loaded nodes' writes take precedence over the death row. */
  function AllUpdates(H: StarkHash, a: Option<Shape>, dead: set<TrieKey>, cache: Overlay): Updates {
    Removals(dead) + (if a.Some? then Writes(H, a.value, []) else map[]) + FlatUpdates(cache)
  }

  function Applied(db: Database, updates: Updates): Database {
    map k | k in db.Keys + updates.Keys && (k in updates ==> updates[k].Insert?) ::
      if k in updates then updates[k].value else db[k]
  }

  /** What a commit leaves at a node position at or below p. */
  ghost predicate Settled(H: StarkHash, a: Shape, p: Bits, s: Store, db: Database) {
    forall q: Bits :: p <= q && |q| < 256 ==>
      var w := Writes(H, a, p);
      if NodeKey(q) in w then w[NodeKey(q)].Insert? && NodeKey(q) in db && db[NodeKey(q)] == w[NodeKey(q)].value
      else (NodeKey(q) in s.db && NodeKey(q) !in s.dead ==> NodeKey(q) in db && db[NodeKey(q)] == s.db[NodeKey(q)])
  }

  /** Nothing is written above or beside a position: the writes below a child are the child's own. */
  lemma {:induction false} ChildWrites(H: StarkHash, a: Shape, p: Bits, s: Store, k: Bits, q: Bits)
    requires Holds(H, a, p, s) && Placed(a) && Follows(a, k) && StepLen(a) > 0 && p + k[..StepLen(a)] <= q && |q| < 256
    ensures var w, c := Writes(H, a, p), Writes(H, Toward(a, k), p + k[..StepLen(a)]);
            && (NodeKey(q) in w <==> NodeKey(q) in c) && (NodeKey(q) in c ==> w[NodeKey(q)] == c[NodeKey(q)])
  {
    hide HoldsTop, Refers, StoredNode, NodeAt, Denote;
    StepPosition(a, k);
    assert PathOf(NodeKey(q).bytes) == q && |q| > |p| && q != p;
    if InArena(a) {
      assert NodeKey(q) != NodeKey(p) by { assert HoldsTop(H, a, p, s); HoldsShort(H, a, p, s); }
      if a.BranchAt? {
        var other := if k[0] then a.left else a.right;
        assert q[|p|] == (p + k[..1])[|p|] && (p + [!k[0]])[|p|] != k[0];
        NoWritesElsewhere(H, other, p + [!k[0]], s, q);
      }
    } else {
      assert Slots(Toward(a, k)) == {};
      NoWrites(H, Toward(a, k), p + k[..StepLen(a)]);
    }
  }

  lemma {:induction false} HoldsShort(H: StarkHash, a: Shape, p: Bits, s: Store)
    requires Holds(H, a, p, s) && !a.LeafAt?
    ensures |p| < 256 && HoldsTop(H, a, p, s)
  {
  }

  lemma {:induction false} NoWrites(H: StarkHash, a: Shape, p: Bits)
    requires Slots(a) == {}
    ensures Writes(H, a, p) == map[]
  {
  }

  lemma {:induction false} NoWritesElsewhere(H: StarkHash, a: Shape, p: Bits, s: Store, q: Bits)
    requires Holds(H, a, p, s) && !(p <= q) && |q| < 256
    ensures NodeKey(q) !in Writes(H, a, p)
  {
    if NodeKey(q) in Writes(H, a, p) { WritesBelow(H, a, p, s, NodeKey(q)); }
  }

  lemma {:induction false} SettledChild(H: StarkHash, a: Shape, p: Bits, s: Store, k: Bits, db: Database)
    requires Holds(H, a, p, s) && Placed(a) && Follows(a, k) && StepLen(a) > 0 && Settled(H, a, p, s, db)
    ensures Settled(H, Toward(a, k), p + k[..StepLen(a)], s, db)
  {
    hide Holds, Placed, Writes, Denote;
    forall q: Bits | p + k[..StepLen(a)] <= q && |q| < 256
      ensures var w, c := Writes(H, a, p), Writes(H, Toward(a, k), p + k[..StepLen(a)]);
              && (NodeKey(q) in w <==> NodeKey(q) in c) && (NodeKey(q) in c ==> w[NodeKey(q)] == c[NodeKey(q)])
    {
      ChildWrites(H, a, p, s, k, q);
    }
  }

  /** One node: after the commit its record is in the database, with its hash. */
  lemma {:induction false} SettledTop(H: StarkHash, a: Shape, p: Bits, s: Store, db: Database)
    requires Holds(H, a, p, s) && Placed(a) && !a.LeafAt? && Settled(H, a, p, s, db)
    ensures HoldsTop(H, Unloaded(a), p, Store(map[], db, {}))
  {
    HoldsShort(H, a, p, s);
    UnloadedDenotes(a);
    if a.StemAt? { UnloadedDenotes(a.child); } else { UnloadedDenotes(a.left); UnloadedDenotes(a.right); }
    if InArena(a) {
      assert NodeKey(p) in Writes(H, a, p);
    } else {
      assert Slots(a) == {};
      NoWrites(H, a, p);
    }
  }

  /** Once its writes and the untouched records are in the database, a subtree can be read back from there alone. */
  lemma {:induction false} UnloadedHolds(H: StarkHash, a: Shape, h: nat, p: Bits, s: Store, db: Database)
    requires Holds(H, a, p, s) && Placed(a) && Canonical(Denote(a), h) && Settled(H, a, p, s, db)
    ensures Holds(H, Unloaded(a), p, Store(map[], db, {}))
  {
    hide HoldsTop, Settled, Writes;
    match a
    case LeafAt(_) =>
    case BranchAt(_, l, r) =>
      SettledTop(H, a, p, s, db);
      SettledChild(H, a, p, s, [false], db);
      SettledChild(H, a, p, s, [true], db);
      assert [false][..1] == [false] && [true][..1] == [true];
      UnloadedHolds(H, l, h - 1, p + [false], s, db);
      UnloadedHolds(H, r, h - 1, p + [true], s, db);
    case StemAt(_, q, c) =>
      SettledTop(H, a, p, s, db);
      SettledChild(H, a, p, s, q, db);
      assert q[..|q|] == q;
      UnloadedHolds(H, c, h - |q|, p + q, s, db);
  }

  // ----- the whole commit -----

  /** The trie table has an entry for every non-leaf node of the trie and for nothing else. */
  ghost predicate Exact(root: Option<Trie>, db: Database) {
    forall e: TrieKey :: e.NodeEntry? ==> (e in db <==> IsLive(root, e))
  }

  /** A trie entry after the commit: written for a loaded node, or kept from before and not on the death row. */
  lemma {:induction false} AppliedNode(H: StarkHash, a: Option<Shape>, s: Store, cache: Overlay, e: TrieKey)
    requires e.NodeEntry? && (a.Some? ==> Holds(H, a.value, [], s))
    ensures var w: Updates := if a.Some? then Writes(H, a.value, []) else map[];
            var db := Applied(s.db, AllUpdates(H, a, s.dead, cache));
            && (e in db <==> e in w || (e in s.db && e !in s.dead))
            && (e in w ==> w[e].Insert? && db[e] == w[e].value)
            && (e !in w && e in db ==> db[e] == s.db[e])
  {
    hide Writes, Holds, Denote;
    if a.Some? && e in Writes(H, a.value, []) { WritesBelow(H, a.value, [], s, e); }
  }

  lemma {:induction false} AppliedFlat(H: StarkHash, a: Option<Shape>, s: Store, cache: Overlay, b: ByteVec)
    requires a.Some? ==> Holds(H, a.value, [], s)
    requires forall e :: e in s.dead ==> e.NodeEntry?
    ensures var db := Applied(s.db, AllUpdates(H, a, s.dead, cache));
            && (FlatEntry(b) in db <==> if b in cache then cache[b].Insert? else FlatEntry(b) in s.db)
            && (FlatEntry(b) in db ==>
                  db[FlatEntry(b)] == if b in cache then FeltValue(cache[b].value) else s.db[FlatEntry(b)])
  {
    hide Writes, Holds, Denote;
    if a.Some? && FlatEntry(b) in Writes(H, a.value, []) { WritesBelow(H, a.value, [], s, FlatEntry(b)); }
  }

  lemma {:induction false} DiskTop(H: StarkHash, a: Shape, p: Bits, s: Store)
    requires Holds(H, a, p, s) && Slots(a) == {} && !a.LeafAt?
    ensures NodeKey(p) in s.db
    ensures a.BranchAt? ==> Slots(a.left) == {} && Slots(a.right) == {}
    ensures a.StemAt? ==> Slots(a.child) == {}
  {
    assert !InArena(a);
  }

  lemma {:induction false} Rejoin(p: Bits, q: Bits, e: nat)
    requires e <= |q|
    ensures (p + q[..e]) + q[e..] == p + q
  {
  }

  /** Every node of a trie that is wholly on disk has its entry. */
  lemma {:induction false} LiveStored(H: StarkHash, a: Shape, p: Bits, s: Store, q: Bits)
    requires Holds(H, a, p, s) && Slots(a) == {} && NodeAt(Denote(a), q)
    ensures NodeKey(p + q) in s.db
  {
    DiskTop(H, a, p, s);
    if q == [] {
      assert p + q == p;
    } else {
      var e := StepLen(a);
      assert Follows(a, q) && Slots(Toward(a, q)) == {} && NodeAt(Denote(Toward(a, q)), q[e..]);
      hide HoldsTop, NodeKey, Slots, Denote, Toward, Follows;
      TowardHolds(H, a, p, q, s);
      Rejoin(p, q, e);
      LiveStored(H, Toward(a, q), p + q[..e], s, q[e..]);
    }
  }

  /** With the updates applied, the database alone has the trie. */
  lemma {:induction false} AppliedHolds(H: StarkHash, height: nat, a: Shape, root: Option<RootHandle>, s: Store,
          nextKey: ArenaKey, cache: Overlay)
    requires TreeInv(H, height, Some(a), root, s, nextKey)
    ensures Holds(H, Unloaded(a), [], Store(map[], Applied(s.db, AllUpdates(H, Some(a), s.dead, cache)), {}))
  {
    hide Writes, Holds, Denote, Applied, AllUpdates, Unloaded;
    var db := Applied(s.db, AllUpdates(H, Some(a), s.dead, cache));
    forall q: Bits | |q| < 256
      ensures var w, e := Writes(H, a, []), NodeKey(q);
              if e in w then w[e].Insert? && e in db && db[e] == w[e].value
              else (e in s.db && e !in s.dead ==> e in db && db[e] == s.db[e])
    {
      AppliedNode(H, Some(a), s, cache, NodeKey(q));
    }
    assert Settled(H, a, [], s, db);
    UnloadedHolds(H, a, height, [], s, db);
  }

  /** And it has the trie's nodes and no others. */
  lemma {:induction false} AppliedExact(H: StarkHash, height: nat, a: Option<Shape>, root: Option<RootHandle>,
          s: Store, nextKey: ArenaKey, cache: Overlay)
    requires TreeInv(H, height, a, root, s, nextKey)
    ensures var db := Applied(s.db, AllUpdates(H, a, s.dead, cache));
            && (a.Some? ==> Holds(H, Unloaded(a.value), [], Store(map[], db, {})))
            && Exact(DenoteRoot(a), db)
  {
    hide Writes, Holds, Denote, Applied, AllUpdates, Unloaded;
    var db := Applied(s.db, AllUpdates(H, a, s.dead, cache));
    if a.Some? {
      AppliedHolds(H, height, a.value, root, s, nextKey, cache);
      UnloadedDenotes(a.value);
    }
    forall e: TrieKey | e.NodeEntry? ensures e in db <==> IsLive(DenoteRoot(a), e) {
      AppliedNode(H, a, s, cache, e);
      var q := PathOf(e.bytes);
      if a.Some? && e in Writes(H, a.value, []) {
        WritesBelow(H, a.value, [], s, e);
        assert q[0..] == q;
      }
      if IsLive(DenoteRoot(a), e) {
        LiveStored(H, Unloaded(a.value), [], Store(map[], db, {}), q);
        assert [] + q == q;
      }
    }
  }

  /** The flat table takes over what the overlay showed. */
  lemma {:induction false} AppliedView(H: StarkHash, height: nat, a: Option<Shape>, s: Store, cache: Overlay,
          key: Bits)
    requires a.Some? ==> Holds(H, a.value, [], s)
    requires Typed(s.db, height) && forall e :: e in s.dead ==> e.NodeEntry?
    ensures FlatGet(Applied(s.db, AllUpdates(H, a, s.dead, cache)), key) == View(cache, s.db, key)
  {
    hide Holds, Applied, AllUpdates, BitsliceToBytes, PathOf, Typed;
    AppliedFlat(H, a, s, cache, BitsliceToBytes(key));
    if FlatKey(key) in s.db { TypedAt(s.db, height, FlatKey(key)); }
  }

  lemma {:induction false} TypedAt(db: Database, height: nat, e: TrieKey)
    requires Typed(db, height) && e in db
    ensures if e.NodeEntry? then db[e].NodeValue? && e == NodeKey(PathOf(e.bytes))
            else db[e].FeltValue? && db[e].felt != 0 && |PathOf(e.bytes)| == height && e == FlatKey(PathOf(e.bytes))
  {
  }

  lemma {:induction false} AppliedTyped(H: StarkHash, height: nat, a: Option<Shape>, s: Store, cache: Overlay)
    requires a.Some? ==> Holds(H, a.value, [], s)
    requires Typed(s.db, height) && OverlayTyped(cache, height) && forall e :: e in s.dead ==> e.NodeEntry?
    ensures Typed(Applied(s.db, AllUpdates(H, a, s.dead, cache)), height)
  {
    hide Holds, Applied, AllUpdates, Writes, BitsliceToBytes, PathOf, EncodePath;
    var db := Applied(s.db, AllUpdates(H, a, s.dead, cache));
    forall e | e in db
      ensures if e.NodeEntry? then db[e].NodeValue? && e == NodeKey(PathOf(e.bytes))
              else db[e].FeltValue? && db[e].felt != 0 && |PathOf(e.bytes)| == height && e == FlatKey(PathOf(e.bytes))
    {
      if e.NodeEntry? {
        AppliedNode(H, a, s, cache, e);
        if a.Some? && e in Writes(H, a.value, []) { WritesBelow(H, a.value, [], s, e); }
      } else {
        AppliedFlat(H, a, s, cache, e.bytes);
      }
    }
  }

  /** Overlay and flat table merged: the agreement with the trie carries over. */
  lemma {:induction false} CommittedFlat(root: Option<Trie>, cache: Overlay, db: Database, db': Database, height: nat)
    requires FlatInv(root, cache, db, height) && Typed(db', height)
    requires forall key: Bits :: FlatGet(db', key) == View(cache, db, key)
    ensures FlatInv(root, map[], db', height)
    ensures forall key: Bits :: View(map[], db', key) == View(cache, db, key)
  {
    hide FlatGet, BitsliceToBytes, Typed, Lookup;
    forall key: Bits ensures View(map[], db', key) == View(cache, db, key) {
      assert FlatGet(db', key) == View(cache, db, key);
    }
    forall key: Bits | |key| == height ensures KeyAgrees(root, map[], db', key) {
      assert KeyAgrees(root, cache, db, key);
    }
  }

  /** After a commit the database alone stands for the tree it was made from: the arena is empty and the root not
      loaded, every stored hash is its node's own, the trie table has exactly the live nodes, and the flat table has
      exactly what could be seen through the overlay. */
  lemma {:induction false} CommitInv(H: StarkHash, height: nat, a: Option<Shape>, root: Option<RootHandle>, s: Store,
          nextKey: ArenaKey, cache: Overlay)
    requires TreeInv(H, height, a, root, s, nextKey)
    requires FlatInv(DenoteRoot(a), cache, s.db, height) && forall e :: e in s.dead ==> e.NodeEntry?
    ensures var db := Applied(s.db, AllUpdates(H, a, s.dead, cache));
            && TreeInv(H, height, UnloadedShape(a), Option.None, Store(map[], db, {}), nextKey)
            && DenoteRoot(UnloadedShape(a)) == DenoteRoot(a)
            && Typed(db, height) && FlatInv(DenoteRoot(a), map[], db, height) && Exact(DenoteRoot(a), db)
            && forall key: Bits :: View(map[], db, key) == View(cache, s.db, key)
  {
    hide Applied, AllUpdates, Holds, Typed, Denote, Canonical, View, FlatGet;
    AppliedExact(H, height, a, root, s, nextKey, cache);
    AppliedTyped(H, height, a, s, cache);
    forall key: Bits ensures FlatGet(Applied(s.db, AllUpdates(H, a, s.dead, cache)), key) == View(cache, s.db, key) {
      AppliedView(H, height, a, s, cache, key);
    }
    CommittedFlat(DenoteRoot(a), cache, s.db, Applied(s.db, AllUpdates(H, a, s.dead, cache)), height);
    if a.Some? { UnloadedDenotes(a.value); }
  }

  /** What there is to commit: the loaded tree, which reads the same without the death row, or nothing. */
  lemma {:induction false} BeforeCommit(H: StarkHash, height: nat, a: Option<Shape>, root: Option<RootHandle>,
          s: Store, nextKey: ArenaKey)
    requires TreeInv(H, height, a, root, s, nextKey)
    ensures root.None? || root.value.Empty? ==> s.nodes == map[] && (a.Some? ==> Writes(H, a.value, []) == map[])
    ensures root.Some? && root.value.Loaded? ==>
              && a.Some? && InArena(a.value) && a.value.at.key == root.value.key && Placed(a.value)
              && Holds(H, a.value, [], s.(dead := {})) && Slots(a.value) == s.nodes.Keys && a.value.at.key in s.nodes
  {
    if root.Some? && root.value.Loaded? {
      HoldsFrame(H, a.value, [], s, s.(dead := {}));
    } else if a.Some? {
      NoWrites(H, a.value, []);
    }
  }

  lemma {:induction false} AsAllUpdates(H: StarkHash, a: Option<Shape>, root: Option<RootHandle>, dead: set<TrieKey>,
          cache: Overlay)
    requires root.Some? && root.value.Loaded? ==> a.Some?
    requires root.None? || root.value.Empty? ==> (a.Some? ==> Writes(H, a.value, []) == map[])
    ensures AllUpdates(H, a, dead, cache) ==
              (if root.Some? && root.value.Loaded? then Removals(dead) + Writes(H, a.value, []) else Removals(dead)) +
              FlatUpdates(cache)
  {
    hide Writes;
    assert Removals(dead) + map[] == Removals(dead);
  }

  // ----- what the records determine -----

  lemma {:induction false} SameTop(H: StarkHash, a: Shape, b: Shape, p: Bits, s: Store)
    requires !a.LeafAt? && !b.LeafAt? && HoldsTop(H, a, p, s) && HoldsTop(H, b, p, s)
    requires HandleOf(H, a) == HandleOf(H, b)
    ensures a.at == b.at && (a.StemAt? <==> b.StemAt?)
    ensures a.StemAt? ==> a.path == b.path && HandleOf(H, a.child) == HandleOf(H, b.child)
    ensures a.BranchAt? ==> HandleOf(H, a.left) == HandleOf(H, b.left) && HandleOf(H, a.right) == HandleOf(H, b.right)
  {
    hide Tries.Hash, Denote, NodeKey;
  }

  lemma {:induction false} SameLeaf(H: StarkHash, a: Shape, b: Shape, h: nat)
    requires Canonical(Denote(a), h) && Canonical(Denote(b), h) && HandleOf(H, a) == HandleOf(H, b)
    ensures a.LeafAt? <==> b.LeafAt?
    ensures a.LeafAt? ==> a == b
  {
  }

  /** Arena, database and handle alone determine the shape below the handle: two shapes of one height that the same
      records stand for are the same. */
  lemma {:induction false} StoredUnique(H: StarkHash, a: Shape, b: Shape, h: nat, p: Bits, s: Store)
    requires Holds(H, a, p, s) && Holds(H, b, p, s)
    requires Canonical(Denote(a), h) && Canonical(Denote(b), h) && HandleOf(H, a) == HandleOf(H, b)
    ensures a == b
  {
    hide HoldsTop, HandleOf, Tries.Hash;
    SameLeaf(H, a, b, h);
    if !a.LeafAt? {
      SameTop(H, a, b, p, s);
      match (a, b)
      case (BranchAt(_, l, r), BranchAt(_, l', r')) =>
        StoredUnique(H, l, l', h - 1, p + [false], s);
        StoredUnique(H, r, r', h - 1, p + [true], s);
      case (StemAt(_, q, c), StemAt(_, _, c')) =>
        StoredUnique(H, c, c', h - |q|, p + q, s);
      case _ =>
    }
  }

  /** The trie a tree stands for is determined by the tree's own fields and the database, in every state: there is one
      shape at most that fits them. */
  lemma {:induction false} StateUnique(H: StarkHash, height: nat, a: Option<Shape>, b: Option<Shape>,
          root: Option<RootHandle>, s: Store, nextKey: ArenaKey, nextKey': ArenaKey)
    requires TreeInv(H, height, a, root, s, nextKey) && TreeInv(H, height, b, root, s, nextKey')
    ensures a == b
  {
    hide Holds, Canonical, Denote, NoLeak, Tries.Hash;
    match root
    case Some(Empty) =>
    case Some(Loaded(_)) => StoredUnique(H, a.value, b.value, height, [], s);
    case None =>
      TreeState.UnloadedRoot(H, height, a, s, nextKey);
      TreeState.UnloadedRoot(H, height, b, s, nextKey');
      if a.Some? {
        RootOnDisk(H, height, a.value, s, nextKey);
        RootOnDisk(H, height, b.value, s, nextKey');
        StoredUnique(H, a.value, b.value, height, [], s);
      }
  }

  lemma {:induction false} RootOnDisk(H: StarkHash, height: nat, a: Shape, s: Store, nextKey: ArenaKey)
    requires TreeInv(H, height, Some(a), Option.None, s, nextKey)
    ensures Canonical(Denote(a), height) && Holds(H, a, [], s) && Slots(a) == {}
    ensures DbNode(s.db, []).Some? && DbNode(s.db, []).value.hash == Some(Tries.Hash(H, Denote(a)))
    ensures HandleOf(H, a) == NodeHandle.Hash(Tries.Hash(H, Denote(a)))
  {
    HoldsShort(H, a, [], s);
    DiskTop(H, a, [], s);
  }

  /** The tables are empty exactly when the trie is. */
  lemma {:induction false} TablesEmpty(root: Option<Trie>, db: Database, height: nat)
    requires Exact(root, db) && FlatInv(root, map[], db, height) && CanonicalRoot(root, height) && height > 0
    ensures db == map[] <==> root.None?
  {
    hide PathOf, EncodePath, Canonical, Lookup;
    forall e | e in db ensures root.Some? {
      if e.FlatEntry? {
        TypedAt(db, height, e);
        assert KeyAgrees(root, map[], db, PathOf(e.bytes));
      }
    }
    if root.Some? {
      TopIsNode(root.value, height);
      assert PathOf(NodeKey([]).bytes) == [];
      assert IsLive(root, NodeKey([]));
    }
  }

  lemma {:induction false} TopIsNode(t: Trie, height: nat)
    requires Canonical(t, height) && height > 0
    ensures NodeAt(t, [])
  {
  }
}
