/** The joint invariant of arena, database, death row and overlay, and how one replaced subtree keeps it. */
module TreeState {
  import opened Wrappers
  import opened BitStrings
  import opened Felts
  import opened PathCodec
  import opened Nodes
  import opened Tries
  import opened Shapes
  import opened ProofNodes

  datatype RootHandle = Empty | Loaded(key: ArenaKey)

  /** The database entry is the place of a node of the trie. */
  predicate IsLive(root: Option<Trie>, k: TrieKey) {
    root.Some? && k == NodeKey(PathOf(k.bytes)) && NodeAt(root.value, PathOf(k.bytes))
  }

  /** Every trie entry of the database is live or awaits deletion. */
  predicate NoLeak(root: Option<Trie>, db: Database, dead: set<TrieKey>) {
    forall k :: k in db && k.NodeEntry? ==> k in dead || IsLive(root, k)
  }

  /** The shape accounts for the whole arena and is represented by it. */
  predicate ShapeInv(H: StarkHash, height: nat, a: Shape, s: Store) {
    Canonical(Denote(a), height) && Placed(a) && Holds(H, a, [], s) && Slots(a) == s.nodes.Keys
  }

  predicate RootInv(a: Option<Shape>, root: Option<RootHandle>, s: Store) {
    match root
    case None => s.nodes == map[] && s.dead == {}
    case Some(Empty) => a.None?
    case Some(Loaded(k)) => a.Some? && InArena(a.value) && a.value.at == Slot(k)
  }

  predicate TreeInv(H: StarkHash, height: nat, a: Option<Shape>, root: Option<RootHandle>, s: Store,
          nextKey: ArenaKey) {
    && 1 <= height <= 251
    && (forall k :: k in s.nodes ==> k < nextKey)
    && (if a.Some? then ShapeInv(H, height, a.value, s) else s.nodes == map[])
    && RootInv(a, root, s)
    && NoLeak(DenoteRoot(a), s.db, s.dead)
  }

  /** The tables hold what they are meant for. */
  predicate Typed(db: Database, height: nat) {
    forall k :: k in db ==>
      if k.NodeEntry? then db[k].NodeValue? && k == NodeKey(PathOf(k.bytes))
      else db[k].FeltValue? && db[k].felt != 0 && |PathOf(k.bytes)| == height && k == FlatKey(PathOf(k.bytes))
  }

  function FlatGet(db: Database, key: Bits): Option<Felt> {
    if FlatKey(key) in db && db[FlatKey(key)].FeltValue? then Some(db[FlatKey(key)].felt) else None
  }

  type Overlay = map<ByteVec, InsertOrRemove<Felt>>

  /** A key seen through the overlay and then the flat table. */
  function View(cache: Overlay, db: Database, key: Bits): Option<Felt> {
    var b := BitsliceToBytes(key);
    if b in cache then (if cache[b].Insert? then Some(cache[b].value) else None) else FlatGet(db, key)
  }

  /** The trie has the key exactly when the view does. */
  predicate KeyAgrees(root: Option<Trie>, cache: Overlay, db: Database, key: Bits) {
    Find(root, key).Some? <==> View(cache, db, key).Some?
  }

  predicate OverlayTyped(cache: Overlay, height: nat) {
    forall b :: b in cache ==>
      |PathOf(b)| == height && b == BitsliceToBytes(PathOf(b)) && (cache[b].Insert? ==> cache[b].value != 0)
  }

  ghost predicate FlatInv(root: Option<Trie>, cache: Overlay, db: Database, height: nat) {
    && Typed(db, height) && OverlayTyped(cache, height)
    && forall key: Bits :: |key| == height ==> KeyAgrees(root, cache, db, key)
  }

  // ----- one replaced subtree -----

  /** A replaced subtree that accounts for the arena's change keeps the invariant. */
  lemma {:induction false} ReplaceInv(H: StarkHash, height: nat, a: Shape, root: Option<RootHandle>, s: Store,
          nextKey: ArenaKey, k: Bits, n: nat, x: Shape, s': Store, nextKey': ArenaKey)
    requires TreeInv(H, height, Some(a), root, s, nextKey) && Reached(a, k, n) && n <= |k|
    requires Replaces(H, At(a, k, n), x, k[..n], s.nodes.Keys - Slots(At(a, k, n)), s, s')
    requires s'.nodes.Keys == s.nodes.Keys - Slots(At(a, k, n)) + Slots(x)
    requires forall key :: key in s'.nodes ==> key < nextKey'
    requires Canonical(Denote(Graft(a, k, n, x)), height)
    requires NoLeak(Some(Denote(Graft(a, k, n, x))), s.db, s'.dead)
    ensures TreeInv(H, height, Some(Graft(a, k, n, x)), root, s', nextKey')
  {
    var sub := At(a, k, n);
    assert [] + k[..n] == k[..n] && {} + (Slots(a) - Slots(sub)) == Slots(a) - Slots(sub);
    GraftReplaces(H, a, [], k, n, x, {}, s, s');
    AtPlaced(a, k, n);
  }

  /** The special case where the trie itself does not change. */
  lemma {:induction false} ReplaceSame(H: StarkHash, height: nat, a: Shape, root: Option<RootHandle>, s: Store,
          nextKey: ArenaKey, k: Bits, n: nat, x: Shape, s': Store, nextKey': ArenaKey)
    requires TreeInv(H, height, Some(a), root, s, nextKey) && Reached(a, k, n) && n <= |k|
    requires Replaces(H, At(a, k, n), x, k[..n], s.nodes.Keys - Slots(At(a, k, n)), s, s')
    requires s'.nodes.Keys == s.nodes.Keys - Slots(At(a, k, n)) + Slots(x)
    requires forall key :: key in s'.nodes ==> key < nextKey'
    requires Denote(x) == Denote(At(a, k, n)) && s'.dead == s.dead
    ensures var b := Graft(a, k, n, x);
            && TreeInv(H, height, Some(b), root, s', nextKey') && Denote(b) == Denote(a)
            && Reached(b, k, n) && At(b, k, n) == x && TraceTo(b, 0, k, n) == TraceTo(a, 0, k, n)
  {
    GraftDenote(a, k, n, x);
    GraftWalk(a, 0, k, n, x);
    ReplaceInv(H, height, a, root, s, nextKey, k, n, x, s', nextKey');
  }

  // ----- lazy loading -----

  /** The same node, now in the arena. */
  function Relocate(a: Shape, key: ArenaKey): Shape {
    match a
    case LeafAt(_) => a
    case BranchAt(_, l, r) => BranchAt(Slot(key), l, r)
    case StemAt(_, q, c) => StemAt(Slot(key), q, c)
  }

  /** A parent's record with its child toward the rest of the key replaced. */
  function PointTo(n: Node, rest: Bits, child: NodeHandle): Node
    requires n.Binary? ==> rest != []
  {
    if n.Edge? then n.(child := child) else n.SetChild(rest[0], child)
  }

  /** Copying a database node into a free slot relocates it. */
  lemma {:induction false} LoadTop(H: StarkHash, a: Shape, p: Bits, s: Store, key: ArenaKey, node: Node, s': Store)
    requires Placed(a) && Holds(H, a, p, s) && !a.LeafAt? && a.at.Disk?
    requires s'.db == s.db && s'.dead == s.dead && DbNode(s.db, p) == Some(node)
    requires key in s'.nodes && s'.nodes[key] == node
    ensures var x := Relocate(a, key);
            InArena(x) && Placed(x) && Slots(x) == {key} && Holds(H, x, p, s') && Denote(x) == Denote(a)
  {
    match a
    case BranchAt(_, l, r) =>
      HoldsFrame(H, l, p + [false], s, s');
      HoldsFrame(H, r, p + [true], s, s');
    case StemAt(_, q, c) => HoldsFrame(H, c, p + q, s, s');
  }

  /** A loaded node whose database child toward rest is loaded into a free slot. */
  lemma {:induction false} LoadChild(H: StarkHash, a: Shape, p: Bits, rest: Bits, s: Store, key: ArenaKey, node: Node,
          s': Store)
    requires Placed(a) && Holds(H, a, p, s) && InArena(a) && Follows(a, rest)
    requires !Toward(a, rest).LeafAt? && Toward(a, rest).at.Disk?
    requires key !in s.nodes && key !in Slots(a) && s'.db == s.db && s'.dead == s.dead
    requires DbNode(s.db, p + rest[..StepLen(a)]) == Some(node)
    requires s'.nodes == s.nodes[key := node][a.at.key := PointTo(s.nodes[a.at.key], rest, InMemory(key))]
    ensures var x := Redirect(a, rest, Relocate(Toward(a, rest), key));
            && InArena(x) && x.at == a.at && Placed(x) && Holds(H, x, p, s')
            && Slots(x) == Slots(a) + {key} && Denote(x) == Denote(a)
  {
    hide DbNode, Tries.Hash, Canonical;
    StepPosition(a, rest);
    TowardHolds(H, a, p, rest, s);
    LoadTop(H, Toward(a, rest), p + rest[..StepLen(a)], s, key, node, s');
    var x := Relocate(Toward(a, rest), key);
    assert Slots(Toward(a, rest)) == {};
    hide Slots, Placed, Denote, Holds, HoldsTop, NodeKey;
    RedirectSlots(a, rest, x, {});
    if a.BranchAt? { SiblingHolds(H, a, p, rest, Slots(a) - {a.at.key}, s, s'); }
    LoadedParent(H, a, p, rest, s, x, s');
  }

  /** The parent's record refers to the loaded child. */
  lemma {:induction false} LoadedParent(H: StarkHash, a: Shape, p: Bits, rest: Bits, s: Store, x: Shape, s': Store)
    requires Holds(H, a, p, s) && InArena(a) && Follows(a, rest) && StepLen(a) <= |rest|
    requires InArena(x) && Denote(x) == Denote(Toward(a, rest)) && Holds(H, x, p + rest[..StepLen(a)], s')
    requires a.BranchAt? ==> Holds(H, if rest[0] then a.left else a.right, p + [!rest[0]], s')
    requires a.at.key in s'.nodes && s'.nodes[a.at.key] == PointTo(s.nodes[a.at.key], rest, InMemory(x.at.key))
    ensures Holds(H, Redirect(a, rest, x), p, s') && Denote(Redirect(a, rest, x)) == Denote(a)
  {
    hide Tries.Hash;
    StepPosition(a, rest);
    assert HoldsTop(H, a, p, s);
  }

  lemma {:induction false} LoadChildCoherent(H: StarkHash, height: nat, a: Shape, root: Option<RootHandle>, s: Store,
          key: ArenaKey, k: Bits, n: nat, sub: Shape, node: Node, s': Store)
    requires TreeInv(H, height, Some(a), root, s, key) && Reached(a, k, n) && n <= |k| && Coherent(H, a, s.nodes)
    requires sub == At(a, k, n) && InArena(sub) && Follows(sub, k[n..])
    requires !Toward(sub, k[n..]).LeafAt? && Toward(sub, k[n..]).at.Disk?
    requires DbNode(s.db, k[..n] + k[n..][..StepLen(sub)]) == Some(node)
    requires sub.at.key in s.nodes && (s.nodes[sub.at.key].Binary? ==> k[n..] != [])
    requires s' == s.(nodes := s.nodes[key := node][sub.at.key := PointTo(s.nodes[sub.at.key], k[n..], InMemory(key))])
    ensures Coherent(H, Graft(a, k, n, Redirect(sub, k[n..], Relocate(Toward(sub, k[n..]), key))), s'.nodes)
  {
    var rest := k[n..];
    var c := Toward(sub, rest);
    AtPlaced(a, k, n);
    AtHolds(H, a, [], k, n, s);
    assert [] + k[..n] == k[..n];
    AtCoherent(H, a, k, n, s.nodes);
    RedirectCoherent(H, sub, k[..n], rest, s, key, node, s');
    assert Denote(Redirect(sub, rest, Relocate(c, key))) == Denote(sub);
    assert SameHashes(Slots(a) - Slots(sub), s.nodes, s'.nodes);
    GraftCoherent(H, a, k, n, Redirect(sub, rest, Relocate(c, key)), s.nodes, s'.nodes);
  }

  lemma {:induction false} RedirectCoherent(H: StarkHash, sub: Shape, p: Bits, rest: Bits, s: Store, key: ArenaKey,
          node: Node, s': Store)
    requires Placed(sub) && Holds(H, sub, p, s) && InArena(sub) && Follows(sub, rest) && Coherent(H, sub, s.nodes)
    requires !Toward(sub, rest).LeafAt? && Toward(sub, rest).at.Disk?
             && DbNode(s.db, p + rest[..StepLen(sub)]) == Some(node)
    requires sub.at.key in s.nodes && key !in s.nodes && key !in Slots(sub)
    requires s'.nodes == s.nodes[key := node][sub.at.key := PointTo(s.nodes[sub.at.key], rest, InMemory(key))]
    ensures Coherent(H, Redirect(sub, rest, Relocate(Toward(sub, rest), key)), s'.nodes)
  {
    TowardHolds(H, sub, p, rest, s);
    TowardSlots(sub, rest);
    RelocateCoherent(H, Toward(sub, rest), p + rest[..StepLen(sub)], s, key, node, s'.nodes);
    if sub.BranchAt? { CoherentFrame(H, if rest[0] then sub.left else sub.right, s.nodes, s'.nodes); }
  }

  /** Loading the child keeps the invariant and the trie, and takes the walk one node further. */
  lemma {:induction false} LoadChildInv(H: StarkHash, height: nat, a: Shape, root: Option<RootHandle>, s: Store,
          key: ArenaKey, k: Bits, n: nat, sub: Shape, node: Node, s': Store)
    requires TreeInv(H, height, Some(a), root, s, key) && Reached(a, k, n) && n <= |k|
    requires sub == At(a, k, n) && InArena(sub) && Follows(sub, k[n..])
    requires !Toward(sub, k[n..]).LeafAt? && Toward(sub, k[n..]).at.Disk?
    requires DbNode(s.db, k[..n] + k[n..][..StepLen(sub)]) == Some(node)
    requires sub.at.key in s.nodes && (s.nodes[sub.at.key].Binary? ==> k[n..] != [])
    requires s' == s.(nodes := s.nodes[key := node][sub.at.key := PointTo(s.nodes[sub.at.key], k[n..], InMemory(key))])
    ensures var x := Redirect(sub, k[n..], Relocate(Toward(sub, k[n..]), key));
            var b := Graft(a, k, n, x);
            && TreeInv(H, height, Some(b), root, s', key + 1) && Denote(b) == Denote(a)
            && Reached(b, k, n) && TraceTo(b, 0, k, n) == TraceTo(a, 0, k, n) && At(b, k, n) == x
  {
    hide Denote, Canonical, Holds, Refers, HoldsTop, Graft, At, TraceTo, NoLeak;
    AtPlaced(a, k, n);
    AtHolds(H, a, [], k, n, s);
    assert [] + k[..n] == k[..n];
    LoadChild(H, sub, k[..n], k[n..], s, key, node, s');
    ReplaceSame(H, height, a, root, s, key, k, n, Redirect(sub, k[n..], Relocate(Toward(sub, k[n..]), key)), s',
      key + 1);
  }

  /** Before the root is loaded, the database alone says whether there is one. */
  lemma {:induction false} UnloadedRoot(H: StarkHash, height: nat, a: Option<Shape>, s: Store, nextKey: ArenaKey)
    requires TreeInv(H, height, a, Option.None, s, nextKey)
    ensures if a.Some? then NodeKey([]) !in s.dead && DbNode(s.db, []).Some? else NodeKey([]) !in s.db
  {
  }

  /** With its cached hashes right before, they are right after a database node was loaded. */
  lemma {:induction false} RelocateCoherent(H: StarkHash, a: Shape, p: Bits, s: Store, key: ArenaKey, node: Node,
          nodes: NodeMap)
    requires Placed(a) && Holds(H, a, p, s) && !a.LeafAt? && a.at.Disk? && DbNode(s.db, p) == Some(node)
    requires key in nodes && nodes[key].hash == node.hash
    ensures Coherent(H, Relocate(a, key), nodes)
  {
    DiskCoherent(H, if a.StemAt? then a.child else a.left, nodes);
    if a.BranchAt? { DiskCoherent(H, a.right, nodes); }
  }

  lemma {:induction false} DiskCoherent(H: StarkHash, a: Shape, nodes: NodeMap)
    requires Slots(a) == {}
    ensures Coherent(H, a, nodes)
  {
    match a
    case LeafAt(_) =>
    case BranchAt(_, l, r) =>
      DiskCoherent(H, l, nodes);
      DiskCoherent(H, r, nodes);
    case StemAt(_, _, c) => DiskCoherent(H, c, nodes);
  }

  lemma {:induction false} LoadRootInv(H: StarkHash, height: nat, a: Shape, s: Store, key: ArenaKey, node: Node,
          s': Store)
    requires TreeInv(H, height, Some(a), Option.None, s, key)
    requires DbNode(s.db, []) == Some(node) && s' == s.(nodes := s.nodes[key := node])
    ensures TreeInv(H, height, Some(Relocate(a, key)), Some(RootHandle.Loaded(key)), s', key + 1)
    ensures Denote(Relocate(a, key)) == Denote(a) && Coherent(H, Relocate(a, key), s'.nodes)
  {
    LoadTop(H, a, [], s, key, node, s');
    RelocateCoherent(H, a, [], s, key, node, s'.nodes);
  }

  // ----- reading the node a walk stands at -----

  /** What the arena says about the loaded node at bit n of the key, and about the child it leads to. */
  lemma {:induction false} ReadNode(H: StarkHash, height: nat, a: Shape, root: Option<RootHandle>, s: Store,
          nextKey: ArenaKey, k: Bits, n: nat, sub: Shape)
    requires TreeInv(H, height, Some(a), root, s, nextKey) && |k| == height
    requires Reached(a, k, n) && n <= height && sub == At(a, k, n) && InArena(sub)
    ensures n < height && sub.at.key in s.nodes && Refers(H, s.nodes[sub.at.key], sub, n)
    ensures sub.at.key < nextKey && s.nodes[sub.at.key].height == n && (s.nodes[sub.at.key].Edge? <==> sub.StemAt?)
    ensures Canonical(Denote(sub), height - n) && n + StepLen(sub) <= height && StepLen(sub) > 0
    ensures Follows(sub, k[n..]) ==>
              var c, m := Toward(sub, k[n..]), n + StepLen(sub);
              && k[..n] + k[n..][..StepLen(sub)] == k[..m]
              && Canonical(Denote(c), height - m)
              && (!c.LeafAt? && c.at.Disk? ==> NodeKey(k[..m]) !in s.dead && DbNode(s.db, k[..m]).Some?)
  {
    hide Slots, Placed, NoLeak, NodeKey, Reached, At;
    AtCanonical(a, height, k, n);
    AtHolds(H, a, [], k, n, s);
    assert [] + k[..n] == k[..n];
    if Follows(sub, k[n..]) {
      TowardHolds(H, sub, k[..n], k[n..], s);
      assert k[..n] + k[n..][..StepLen(sub)] == k[..n + StepLen(sub)];
    }
  }

  // ----- where a seek ends -----

  /** The walk along the key can go no further: the next step would leave the trie or land on a leaf. */
  predicate IsEnd(a: Shape, k: Bits, n: nat) {
    && Reached(a, k, n) && n < |k| && InArena(At(a, k, n))
    && (Follows(At(a, k, n), k[n..]) ==> Toward(At(a, k, n), k[n..]).LeafAt?)
  }

  /** The path an iterator shows at its last node: through the node, whether or not the key agrees. */
  function EndPath(a: Shape, k: Bits, n: nat): Bits
    requires Reached(a, k, n) && n < |k|
  {
    k[..n] + if At(a, k, n).StemAt? then At(a, k, n).path else [k[n]]
  }

  /** The path shown at the end is the tip of the seek. */
  lemma {:induction false} EndTip(a: Shape, k: Bits, n: nat)
    requires Canonical(Denote(a), |k|) && IsEnd(a, k, n)
    ensures Tip(Denote(a), k, EndPath(a, k, n))
    decreases n
  {
    hide Reached, At, Tip, Tries.Hash;
    if n == 0 {
      NoWalk(a, 0, k, a);
      assert k[0..] == k;
      TopTip(a, k);
      assert EndPath(a, k, 0) == if a.StemAt? then a.path else [k[0]];
    } else {
      Unroll(a, 0, k, n, a);
      var e := StepLen(a);
      var c, r := Toward(a, k), k[e..];
      assert r[n - e..] == k[n..];
      PassShape(a, k);
      TowardCanonical(a, k);
      EndTip(c, r, n - e);
      TipBelow(Denote(a), k, EndPath(c, r, n - e));
      assert k[..e] + r[..n - e] == k[..n];
      assert k[..e] + EndPath(c, r, n - e) == EndPath(a, k, n);
    }
  }

  lemma {:induction false} TopTip(a: Shape, k: Bits)
    requires Canonical(Denote(a), |k|) && !a.LeafAt? && k != [] && (Follows(a, k) ==> Toward(a, k).LeafAt?)
    ensures Tip(Denote(a), k, if a.StemAt? then a.path else [k[0]])
  {
    hide Tip;
    if Follows(a, k) {
      PassShape(a, k);
      TowardCanonical(a, k);
      assert Lookup(Denote(a), k).Some?;
      assert k == if a.StemAt? then a.path else [k[0]];
      OwnTip(Denote(a), k);
    } else {
      StemTip(Denote(a), k);
    }
  }

  /** How many bits a record leads on. */
  function RecordLen(node: Node): nat {
    if node.Edge? then |node.path| else 1
  }

  /** The nodes form the way from the loaded root along the path, each at its record's height and each record leading to
      the next node; the last leads to the end of the path. */
  predicate OnTheWay(nodes: NodeMap, root: Option<RootHandle>, list: seq<(ArenaKey, nat)>, path: Bits) {
    && list != [] && root == Some(RootHandle.Loaded(list[0].0)) && list[0].1 == 0
    && (forall i :: 0 <= i < |list| ==> list[i].0 in nodes && nodes[list[i].0].height == list[i].1)
    && (forall i :: 0 <= i < |list| - 1 ==> Leads(nodes[list[i].0], path, list[i + 1].1, InMemory(list[i + 1].0)))
    && var last := nodes[list[|list| - 1].0];
       |path| == last.height + RecordLen(last) && (last.Edge? ==> path[last.height..] == last.path)
  }

  /** The record leads along the path to the handle at the given height. */
  predicate Leads(node: Node, path: Bits, height: nat, handle: NodeHandle) {
    && height == node.height + RecordLen(node) && height <= |path|
    && (if node.Edge? then path[node.height..height] == node.path && node.child == handle
        else node.GetChild(path[node.height]) == handle)
  }

  /** What a shape's walk says of the records it passes. */
  lemma {:induction false} TraceLeads(H: StarkHash, a: Shape, p: Bits, k: Bits, n: nat, s: Store, path: Bits, i: nat)
    requires Holds(H, a, p, s) && Reached(a, k, n) && n <= |k| && InArena(At(a, k, n)) && p + k[..n] <= path
    requires i < |TraceTo(a, |p|, k, n)|
    ensures var list := TraceTo(a, |p|, k, n) + [(At(a, k, n).at.key, |p| + n)];
            && list[0] == (a.at.key, |p|) && InArena(a)
            && list[i].0 in s.nodes && s.nodes[list[i].0].height == list[i].1
            && Leads(s.nodes[list[i].0], path, list[i + 1].1, InMemory(list[i + 1].0))
    decreases n
  {
    hide Reached, At, TraceTo, Holds, Tries.Hash;
    NoWalk(a, |p|, k, a);
    if n > 0 {
      Unroll(a, |p|, k, n, a);
      var e := StepLen(a);
      var c, r := Toward(a, k), k[e..];
      var below := TraceTo(c, |p| + e, r, n - e) + [(At(c, r, n - e).at.key, |p| + n)];
      PrefixInTwo(p, k, e, n);
      TowardHolds(H, a, p, k, s);
      TraceHead(c, |p| + e, r, n - e);
      if i == 0 {
        TopLeads(H, a, p, k, s, path);
      } else {
        TraceLeads(H, c, p + k[..e], r, n - e, s, path, i - 1);
      }
    }
  }

  lemma {:induction false} TraceHead(a: Shape, d: nat, k: Bits, n: nat)
    requires Reached(a, k, n) && InArena(At(a, k, n))
    ensures InArena(a) && (TraceTo(a, d, k, n) + [(At(a, k, n).at.key, d + n)])[0] == (a.at.key, d)
  {
  }

  lemma {:induction false} TopLeads(H: StarkHash, a: Shape, p: Bits, k: Bits, s: Store, path: Bits)
    requires Holds(H, a, p, s) && InArena(a) && Follows(a, k) && StepLen(a) <= |k| && p + k[..StepLen(a)] <= path
    requires InArena(Toward(a, k))
    ensures a.at.key in s.nodes && s.nodes[a.at.key].height == |p|
    ensures Leads(s.nodes[a.at.key], path, |p| + StepLen(a), InMemory(Toward(a, k).at.key))
  {
    var e := StepLen(a);
    assert (p + k[..e])[|p|..] == k[..e] && path[..|p| + e] == p + k[..e];
    assert path[|p|..|p| + e] == path[..|p| + e][|p|..] == k[..e];
    if a.BranchAt? { assert path[|p|] == path[|p|..|p| + e][0] == k[..e][0] == k[0]; }
  }

  /** At the end of a seek the nodes listed are the way to the tip. */
  lemma {:induction false} EndOnTheWay(H: StarkHash, height: nat, a: Shape, root: Option<RootHandle>, s: Store,
          nextKey: ArenaKey, k: Bits, n: nat)
    requires TreeInv(H, height, Some(a), root, s, nextKey) && |k| == height && IsEnd(a, k, n)
    ensures OnTheWay(s.nodes, root, TraceTo(a, 0, k, n) + [(At(a, k, n).at.key, n)], EndPath(a, k, n))
  {
    var sub, trace, path := At(a, k, n), TraceTo(a, 0, k, n), EndPath(a, k, n);
    var list := trace + [(sub.at.key, n)];
    EndHasRoot(H, height, a, root, s, nextKey, k, n);
    StandsInArena(H, height, a, root, s, nextKey);
    ReadNode(H, height, a, root, s, nextKey, k, n, sub);
    InvHolds(H, height, a, root, s, nextKey);
    hide Reached, At, TraceTo, Holds, TreeInv, Leads, Canonical, Denote, Tries.Hash;
    assert [] + k[..n] == k[..n] <= path;
    forall i | 0 <= i < |trace|
      ensures list[i].0 in s.nodes && s.nodes[list[i].0].height == list[i].1
      ensures Leads(s.nodes[list[i].0], path, list[i + 1].1, InMemory(list[i + 1].0))
    {
      TraceLeads(H, a, [], k, n, s, path, i);
    }
    TraceHead(a, 0, k, n);
    assert path[n..] == if sub.StemAt? then sub.path else [k[n]];
  }

  lemma {:induction false} InvHolds(H: StarkHash, height: nat, a: Shape, root: Option<RootHandle>, s: Store,
          nextKey: ArenaKey)
    requires TreeInv(H, height, Some(a), root, s, nextKey)
    ensures Holds(H, a, [], s)
  {
  }

  lemma {:induction false} EndLookup(a: Shape, k: Bits, n: nat)
    requires Canonical(Denote(a), |k|) && IsEnd(a, k, n)
    ensures var sub := At(a, k, n);
            Lookup(Denote(a), k) == if Follows(sub, k[n..]) then Some(Toward(sub, k[n..]).value) else None
  {
    AtLookup(a, k, n);
    AtCanonical(a, |k|, k, n);
  }

  /** A key has one end. */
  lemma {:induction false} EndUnique(a: Shape, k: Bits, n: nat, m: nat)
    requires IsEnd(a, k, n) && IsEnd(a, k, m)
    ensures n == m
    decreases a
  {
    if n > 0 && m > 0 {
      var e := StepLen(a);
      assert k[e..][n - e..] == k[n..] && k[e..][m - e..] == k[m..];
      EndUnique(Toward(a, k), k[e..], n - e, m - e);
    } else if n < m {
      assert k[0..] == k;
      NextLoaded(a, k, m);
    } else if m < n {
      assert k[0..] == k;
      NextLoaded(a, k, n);
    }
  }

  lemma {:induction false} NextLoaded(a: Shape, k: Bits, n: nat)
    requires n > 0 && Reached(a, k, n) && InArena(At(a, k, n))
    ensures Follows(a, k) && InArena(Toward(a, k))
  {
    var e := StepLen(a);
    assert At(a, k, n) == At(Toward(a, k), k[e..], n - e);
  }

  /** Reading a node whose child is not a leaf: the handle, and the shape once the child is in the arena. */
  ghost function Advanced(a: Shape, k: Bits, n: nat, key: ArenaKey): Shape
    requires Reached(a, k, n) && n <= |k| && Follows(At(a, k, n), k[n..])
  {
    var sub := At(a, k, n);
    var c := Toward(sub, k[n..]);
    if InArena(c) then a else Graft(a, k, n, Redirect(sub, k[n..], Relocate(c, key)))
  }

  /** In b the walk that stood at bit n in a has come to the next node, in the given slot. */
  ghost predicate StepTaken(a: Shape, b: Shape, k: Bits, n: nat, child: ArenaKey)
    requires Reached(a, k, n) && InArena(At(a, k, n))
  {
    var sub := At(a, k, n);
    var m := n + StepLen(sub);
    && Reached(b, k, n) && StepLen(At(b, k, n)) == StepLen(sub)
    && Reached(b, k, m) && InArena(At(b, k, m)) && At(b, k, m).at.key == child
    && TraceTo(b, 0, k, m) == TraceTo(a, 0, k, n) + [(sub.at.key, n)]
  }

  /** Once the child is loaded and the parent points to it, the walk has taken one more step. */
  lemma {:induction false} AdvanceInv(H: StarkHash, height: nat, a: Shape, root: Option<RootHandle>, s: Store,
          key: ArenaKey, k: Bits, n: nat, sub: Shape, s': Store, key': ArenaKey)
    requires TreeInv(H, height, Some(a), root, s, key) && |k| == height && Reached(a, k, n) && n <= |k|
    requires sub == At(a, k, n) && InArena(sub) && Follows(sub, k[n..]) && !Toward(sub, k[n..]).LeafAt?
    requires sub.at.key in s.nodes && (s.nodes[sub.at.key].Binary? ==> k[n..] != [])
    requires if InArena(Toward(sub, k[n..])) then s' == s && key' == key
             else
               && DbNode(s.db, k[..n] + k[n..][..StepLen(sub)]).Some? && key' == key + 1
               && s' == s.(nodes := s.nodes[key := DbNode(s.db, k[..n] + k[n..][..StepLen(sub)]).value]
                                           [sub.at.key := PointTo(s.nodes[sub.at.key], k[n..], InMemory(key))])
    ensures var b, c := Advanced(a, k, n, key), Toward(sub, k[n..]);
            && TreeInv(H, height, Some(b), root, s', key') && Denote(b) == Denote(a)
            && StepTaken(a, b, k, n, if InArena(c) then c.at.key else key)
            && (Coherent(H, a, s.nodes) ==> Coherent(H, b, s'.nodes))
  {
    hide Denote, Canonical, Holds, Refers, HoldsTop, Graft, At, TraceTo, NoLeak, Coherent, TreeInv, Reached, DbNode;
    ReadNode(H, height, a, root, s, key, k, n, sub);
    var c := Toward(sub, k[n..]);
    if !InArena(c) {
      var node := DbNode(s.db, k[..n] + k[n..][..StepLen(sub)]).value;
      LoadChildInv(H, height, a, root, s, key, k, n, sub, node, s');
      if Coherent(H, a, s.nodes) { LoadChildCoherent(H, height, a, root, s, key, k, n, sub, node, s'); }
    }
    StepOn(Advanced(a, k, n, key), 0, k, n);
  }

  /** A node copied from disk brings its hash with it, so that the key passes the same hashes as before. */
  lemma {:induction false} RelocateMarks(H: StarkHash, a: Shape, p: Bits, k: Bits, d: nat, s: Store, key: ArenaKey,
          node: Node, nodes: NodeMap)
    requires Holds(H, a, p, s) && !a.LeafAt? && a.at.Disk? && DbNode(s.db, p) == Some(node)
    requires key in nodes && nodes[key].hash == node.hash
    ensures Unmarked(Relocate(a, key), k, d, nodes) <==> Unmarked(a, k, d, s.nodes)
    ensures TopHash(H, Relocate(a, key), nodes) == TopHash(H, a, s.nodes)
  {
    assert HoldsTop(H, a, p, s);
  }

  /** One step of a walk leaves the hashes on the key's way as they were. */
  lemma {:induction false} AdvanceMarks(H: StarkHash, height: nat, a: Shape, root: Option<RootHandle>, s: Store,
          key: ArenaKey, k: Bits, n: nat, sub: Shape, d: nat, nodes': NodeMap)
    requires TreeInv(H, height, Some(a), root, s, key) && |k| == height && Reached(a, k, n) && n <= |k|
    requires sub == At(a, k, n) && InArena(sub) && Follows(sub, k[n..]) && !Toward(sub, k[n..]).LeafAt?
    requires sub.at.key in s.nodes && (s.nodes[sub.at.key].Binary? ==> k[n..] != [])
    requires if InArena(Toward(sub, k[n..])) then nodes' == s.nodes
             else
               && DbNode(s.db, k[..n] + k[n..][..StepLen(sub)]).Some?
               && nodes' == s.nodes[key := DbNode(s.db, k[..n] + k[n..][..StepLen(sub)]).value]
                                   [sub.at.key := PointTo(s.nodes[sub.at.key], k[n..], InMemory(key))]
    ensures Unmarked(Advanced(a, k, n, key), k, d, nodes') <==> Unmarked(a, k, d, s.nodes)
    ensures TopHash(H, Advanced(a, k, n, key), nodes') == TopHash(H, a, s.nodes)
  {
    hide Denote, Canonical, Holds, Refers, HoldsTop, Graft, At, NoLeak, Reached, DbNode, Placed, Slots, Tries.Hash;
    var rest := k[n..];
    var c := Toward(sub, rest);
    if !InArena(c) {
      ReadNode(H, height, a, root, s, key, k, n, sub);
      StandsInTree(H, height, a, root, s, key, k, n);
      TowardHolds(H, sub, k[..n], rest, s);
      var x := Redirect(sub, rest, Relocate(c, key));
      forall e: nat ensures Unmarked(x, rest, e, nodes') <==> Unmarked(sub, rest, e, s.nodes) {
        if e >= StepLen(sub) {
          RelocateMarks(H, c, k[..n] + rest[..StepLen(sub)], rest[StepLen(sub)..], e - StepLen(sub), s, key,
                        DbNode(s.db, k[..n] + rest[..StepLen(sub)]).value, nodes');
        }
      }
      FreshElsewhere(H, height, a, root, s, key, sub, k, n, nodes');
      GraftMarks(a, k, n, x, d, s.nodes, nodes');
      EditKeepsTop(H, a, k, n, sub, x, s.nodes, nodes');
    }
  }

  lemma {:induction false} FreshElsewhere(H: StarkHash, height: nat, a: Shape, root: Option<RootHandle>, s: Store,
          key: ArenaKey, sub: Shape, k: Bits, n: nat, nodes': NodeMap)
    requires TreeInv(H, height, Some(a), root, s, key) && Reached(a, k, n) && sub == At(a, k, n) && InArena(sub)
    requires sub.at.key in s.nodes && key in nodes' && sub.at.key in nodes' && nodes'.Keys == s.nodes.Keys + {key}
    requires forall e :: e in s.nodes ==> nodes'[e].hash == s.nodes[e].hash
    ensures Placed(a) && Slots(a) <= s.nodes.Keys && SameHashes(Slots(a) - Slots(sub), s.nodes, nodes')
    ensures key != sub.at.key && key !in s.nodes
  {
  }

  lemma {:induction false} LoadRootMarks(H: StarkHash, height: nat, a: Shape, s: Store, key: ArenaKey, node: Node,
          nodes: NodeMap)
    requires TreeInv(H, height, Some(a), Option.None, s, key) && DbNode(s.db, []) == Some(node)
    requires key in nodes && nodes[key].hash == node.hash
    ensures forall k: Bits, d: nat :: Unmarked(Relocate(a, key), k, d, nodes) <==> Unmarked(a, k, d, s.nodes)
    ensures TopHash(H, Relocate(a, key), nodes) == TopHash(H, a, s.nodes)
  {
    hide Unmarked, TopHash;
    RelocateMarks(H, a, [], [], 0, s, key, node, nodes);
    forall k: Bits, d: nat ensures Unmarked(Relocate(a, key), k, d, nodes) <==> Unmarked(a, k, d, s.nodes) {
      RelocateMarks(H, a, [], k, d, s, key, node, nodes);
    }
  }

  /** On a walk that is loaded already nothing is loaded. */
  lemma {:induction false} AdvanceLoaded(a: Shape, k: Bits, n: nat, key: ArenaKey)
    requires Reached(a, k, n) && n <= |k| && InArena(At(a, k, n)) && Follows(At(a, k, n), k[n..])
    requires !Toward(At(a, k, n), k[n..]).LeafAt?
    ensures Walked(a, k) ==> Advanced(a, k, n, key) == a
  {
    if Walked(a, k) {
      var m :| IsEnd(a, k, m);
      WalkedOn(a, k, n, m);
    }
  }

  /** What an iterator reads off a node for the rest of a key: the child's handle, the bits up to the child,
      and whether the key goes there. */
  function ChildHandle(node: Node, rest: Bits): NodeHandle
    requires node.Binary? ==> rest != []
  {
    if node.Binary? then node.GetChild(rest[0]) else node.child
  }

  function ChildBits(node: Node, rest: Bits): Bits
    requires node.Binary? ==> rest != []
  {
    if node.Binary? then [rest[0]] else node.path
  }

  /** The parent's record after its child was loaded; unchanged when it pointed there already. */
  lemma {:induction false} PointToUpdate(nodes: NodeMap, id: ArenaKey, rest: Bits, key: ArenaKey)
    requires id in nodes && (nodes[id].Binary? ==> rest != [])
    ensures ChildHandle(nodes[id], rest) == InMemory(key) ==>
              nodes[id := PointTo(nodes[id], rest, InMemory(key))] == nodes
    ensures nodes[id].Binary? ==> PointTo(nodes[id], rest, InMemory(key)) == nodes[id].SetChild(rest[0], InMemory(key))
    ensures nodes[id].Edge? ==> PointTo(nodes[id], rest, InMemory(key)) == nodes[id].(child := InMemory(key))
  {
  }

  /** The child's place, seen from the node's record: on the key's own path exactly when the record says the key goes
      there. */
  lemma {:induction false} ReadStep(H: StarkHash, height: nat, a: Shape, root: Option<RootHandle>, s: Store,
          nextKey: ArenaKey, k: Bits, n: nat, sub: Shape, node: Node, matches: bool)
    requires TreeInv(H, height, Some(a), root, s, nextKey) && |k| == height
    requires Reached(a, k, n) && n < height && sub == At(a, k, n) && InArena(sub)
    requires sub.at.key in s.nodes && node == s.nodes[sub.at.key]
    requires node.Edge? ==> node.height == n && matches == node.PathMatches(k, n)
    requires node.Binary? ==> matches
    ensures var rest := k[n..];
            var path := k[..n] + ChildBits(node, rest);
            && path == EndPath(a, k, n) && |path| == n + StepLen(sub) && n < |path| <= height
            && matches == Follows(sub, rest)
            && (matches ==> path == k[..n + StepLen(sub)] && ChildHandle(node, rest) == HandleOf(H, Toward(sub, rest)))
  {
    hide Holds, HoldsTop, Placed, Slots, NoLeak, Lookup, NodeKey, DbNode, Reached, At, Canonical, TreeInv;
    ReadNode(H, height, a, root, s, nextKey, k, n, sub);
    if node.Edge? { FullMatch(node, k); }
  }

  /** Reading a node: whether the seek ends here and with which leaf, or that its child can be had. */
  lemma {:induction false} ReadChild(H: StarkHash, height: nat, a: Shape, root: Option<RootHandle>, s: Store,
          nextKey: ArenaKey, k: Bits, n: nat, sub: Shape, node: Node, matches: bool)
    requires TreeInv(H, height, Some(a), root, s, nextKey) && |k| == height
    requires Reached(a, k, n) && n < height && sub == At(a, k, n) && InArena(sub)
    requires sub.at.key in s.nodes && node == s.nodes[sub.at.key]
    requires node.Edge? ==> node.height == n && matches == node.PathMatches(k, n)
    requires node.Binary? ==> matches
    ensures var rest := k[n..];
            var path := k[..n] + ChildBits(node, rest);
            && path == EndPath(a, k, n) && |path| == n + StepLen(sub) && n < |path| <= height
            && matches == Follows(sub, rest)
            && (matches ==> path == k[..n + StepLen(sub)] && ChildHandle(node, rest) == HandleOf(H, Toward(sub, rest)))
            && (!matches || |path| >= height ==> IsEnd(a, k, n))
            && (!matches || |path| >= height ==>
                  Lookup(Denote(a), k) ==
                    if matches && |path| == height then ChildHandle(node, rest).AsHash() else None)
            && (matches && |path| < height ==> !Toward(sub, rest).LeafAt? && k[..n] + rest[..StepLen(sub)] == path)
            && (matches && |path| < height && !InArena(Toward(sub, rest)) ==>
                  ChildHandle(node, rest).Hash? && NodeKey(path) !in s.dead && DbNode(s.db, path).Some?)
  {
    hide Holds, HoldsTop, Placed, Slots, NoLeak, Lookup, NodeKey, DbNode, Reached, At, TreeInv, ChildHandle, ChildBits,
         EndPath, Refers;
    ReadNode(H, height, a, root, s, nextKey, k, n, sub);
    ReadStep(H, height, a, root, s, nextKey, k, n, sub, node, matches);
    if IsEnd(a, k, n) {
      InvCanonical(H, height, a, root, s, nextKey);
      EndLookup(a, k, n);
    }
  }

  // ----- filling in cached hashes -----

  /** Same arena but for cached hashes within the given slots. */
  predicate OnlyHashes(nodes: NodeMap, nodes': NodeMap, slots: set<ArenaKey>) {
    nodes'.Keys == nodes.Keys &&
    forall k :: k in nodes ==> nodes'[k].Bare() == nodes[k].Bare() && (k !in slots ==> nodes'[k] == nodes[k])
  }

  /** No cached hash is lost. */
  predicate HashesRemain(nodes: NodeMap, nodes': NodeMap) {
    forall k :: k in nodes && nodes[k].hash.Some? ==> k in nodes' && nodes'[k].hash.Some?
  }

  lemma {:induction false} HashesChain(n0: NodeMap, n1: NodeMap, n2: NodeMap, s1: set<ArenaKey>, s2: set<ArenaKey>,
          slots: set<ArenaKey>)
    requires OnlyHashes(n0, n1, s1) && OnlyHashes(n1, n2, s2) && s1 <= slots && s2 <= slots
    ensures OnlyHashes(n0, n2, slots)
  {
  }

  lemma {:induction false} HashOne(nodes: NodeMap, key: ArenaKey, h: Felt)
    requires key in nodes
    ensures OnlyHashes(nodes, nodes[key := nodes[key].WithHash(h)], {key})
  {
  }

  /** Once the children are hashed, the node's own hash can be filled in. */
  lemma {:induction false} BranchHashed(H: StarkHash, a: Shape, n0: NodeMap, n1: NodeMap, n2: NodeMap, h: Felt,
          n3: NodeMap)
    requires a.BranchAt? && InArena(a) && Placed(a) && a.at.key in n0
    requires OnlyHashes(n0, n1, Slots(a.left)) && OnlyHashes(n1, n2, Slots(a.right))
    requires a.at.key in n2 && n3 == n2[a.at.key := n2[a.at.key].WithHash(h)]
    ensures OnlyHashes(n0, n3, Slots(a))
    ensures Coherent(H, a.left, n1) && Coherent(H, a.right, n2) && h == Tries.Hash(H, Denote(a)) ==> Coherent(H, a, n3)
  {
    HashOne(n2, a.at.key, h);
    HashesChain(n0, n1, n2, Slots(a.left), Slots(a.right), Slots(a));
    HashesChain(n0, n2, n3, Slots(a), {a.at.key}, Slots(a));
    if Coherent(H, a.left, n1) && Coherent(H, a.right, n2) {
      CoherentFrame(H, a.left, n1, n3);
      CoherentFrame(H, a.right, n2, n3);
    }
  }

  lemma {:induction false} StemHashed(H: StarkHash, a: Shape, n0: NodeMap, n1: NodeMap, h: Felt, n2: NodeMap)
    requires a.StemAt? && InArena(a) && Placed(a) && a.at.key in n0
    requires OnlyHashes(n0, n1, Slots(a.child))
    requires a.at.key in n1 && n2 == n1[a.at.key := n1[a.at.key].WithHash(h)]
    ensures OnlyHashes(n0, n2, Slots(a))
    ensures Coherent(H, a.child, n1) && h == Tries.Hash(H, Denote(a)) ==> Coherent(H, a, n2)
  {
    HashOne(n1, a.at.key, h);
    HashesChain(n0, n1, n2, Slots(a.child), {a.at.key}, Slots(a));
    if Coherent(H, a.child, n1) { CoherentFrame(H, a.child, n1, n2); }
  }

  /** Hashing the left child leaves the right one as it was. */
  lemma {:induction false} SiblingHashed(H: StarkHash, a: Shape, p: Bits, s: Store, s': Store)
    requires a.BranchAt? && Placed(a) && Holds(H, a, p, s)
    requires s'.db == s.db && s'.dead == s.dead && OnlyHashes(s.nodes, s'.nodes, Slots(a.left))
    ensures Holds(H, a.right, p + [true], s')
    ensures Coherent(H, a.right, s.nodes) ==> Coherent(H, a.right, s'.nodes)
  {
    HoldsFrame(H, a.right, p + [true], s, s');
    if Coherent(H, a.right, s.nodes) { CoherentFrame(H, a.right, s.nodes, s'.nodes); }
  }

  /** Filling in hashes below bit n of a key disturbs nothing, and keeps the whole coherent. */
  lemma {:induction false} HashesInv(H: StarkHash, height: nat, a: Shape, root: Option<RootHandle>, s: Store,
          nextKey: ArenaKey, k: Bits, n: nat, s': Store)
    requires TreeInv(H, height, Some(a), root, s, nextKey) && Reached(a, k, n)
    requires s'.db == s.db && s'.dead == s.dead && OnlyHashes(s.nodes, s'.nodes, Slots(At(a, k, n)))
    ensures TreeInv(H, height, Some(a), root, s', nextKey)
    ensures Coherent(H, a, s.nodes) && Coherent(H, At(a, k, n), s'.nodes) ==> Coherent(H, a, s'.nodes)
  {
    HoldsFrame(H, a, [], s, s');
    GraftSelf(a, k, n);
    if Coherent(H, a, s.nodes) && Coherent(H, At(a, k, n), s'.nodes) {
      GraftCoherent(H, a, k, n, At(a, k, n), s.nodes, s'.nodes);
    }
  }

  // ----- resuming a seek -----

  /** How many leading entries are below the bound: the partition point of a list of ascending heights. */
  function PartitionPoint(list: seq<(ArenaKey, nat)>, bound: nat): (c: nat)
    ensures c <= |list|
    ensures forall i :: 0 <= i < c ==> list[i].1 < bound
    ensures c < |list| ==> list[c].1 >= bound
  {
    if list == [] || list[0].1 >= bound then 0 else 1 + PartitionPoint(list[1..], bound)
  }

  /** The last entry below the bound. */
  function LastBelow(list: seq<(ArenaKey, nat)>, bound: nat): Option<(ArenaKey, nat)> {
    if PartitionPoint(list, bound) == 0 then None else Some(list[PartitionPoint(list, bound) - 1])
  }

  lemma {:induction false} TraceBelow(a: Shape, d: nat, k: Bits, n: nat, i: nat)
    requires Reached(a, k, n) && i < |TraceTo(a, d, k, n)|
    ensures d <= TraceTo(a, d, k, n)[i].1 < d + n
    ensures forall j :: 0 <= j < i ==> TraceTo(a, d, k, n)[j].1 < TraceTo(a, d, k, n)[i].1
    decreases n
  {
    hide Reached, At, TraceTo;
    NoWalk(a, d, k, a);
    if n > 0 {
      Unroll(a, d, k, n, a);
      var e := StepLen(a);
      var c, r := Toward(a, k), k[e..];
      if i > 0 { TraceBelow(c, d + e, r, n - e, i - 1); }
    }
  }

  /** The entry kept is the deepest one below the bound. */
  lemma {:induction false} LastBelowGreatest(a: Shape, k: Bits, n: nat, list: seq<(ArenaKey, nat)>, bound: nat)
    requires IsEnd(a, k, n) && list == TraceTo(a, 0, k, n) + [(At(a, k, n).at.key, n)]
    ensures forall e :: e in list && e.1 < bound ==>
              LastBelow(list, bound).Some? && e.1 <= LastBelow(list, bound).value.1
  {
    var trace, c := TraceTo(a, 0, k, n), PartitionPoint(list, bound);
    hide IsEnd, At, TraceTo, PartitionPoint;
    forall i, j | 0 <= i < j < |list| ensures list[i].1 < list[j].1 {
      IsReached(a, k, n);
      if j < |trace| { TraceBelow(a, 0, k, n, j); } else { TraceBelow(a, 0, k, n, i); }
    }
    forall i | 0 <= i < |list| && list[i].1 < bound ensures c > 0 && list[i].1 <= list[c - 1].1 {
      assert i < c;
    }
  }

  lemma {:induction false} IsReached(a: Shape, k: Bits, n: nat)
    requires IsEnd(a, k, n)
    ensures Reached(a, k, n)
  {
  }

  /** The last kept node of an earlier seek lies on the new key too, with the same nodes above it. */
  lemma {:induction false} ResumePoint(a: Shape, j: Bits, m: nat, k: Bits, list: seq<(ArenaKey, nat)>, path: Bits,
          shared: nat, i: nat)
    requires IsEnd(a, j, m) && |j| == |k|
    requires list == TraceTo(a, 0, j, m) + [(At(a, j, m).at.key, m)] && path == EndPath(a, j, m)
    requires shared <= |path| && shared <= |k| && path[..shared] == k[..shared]
    requires i < |list| && list[i].1 < shared
    ensures var (id, h) := list[i];
            && h < |k| && h <= m && path[..h] == k[..h] && j[..h] == k[..h]
            && Reached(a, k, h) && InArena(At(a, k, h)) && At(a, k, h).at.key == id
            && TraceTo(a, 0, k, h) == list[..i]
  {
    var (id, h) := list[i];
    if i < |list| - 1 { TraceEntry(a, 0, j, m, i); }
    assert path[..h] == path[..shared][..h] == k[..shared][..h] == k[..h];
    assert path[..h] == j[..h] by { assert path[..m] == j[..m]; }
    SamePrefixSameNode(a, 0, j, k, h);
    if i == |list| - 1 { assert list[..i] == TraceTo(a, 0, j, m); }
  }

  // ----- walks that are loaded already -----

  /** The key's walk is loaded to its end. */
  ghost predicate Walked(a: Shape, k: Bits) {
    exists n :: IsEnd(a, k, n)
  }

  /** Before its end a loaded walk goes on to a loaded node. */
  lemma {:induction false} WalkedOn(a: Shape, k: Bits, h: nat, n: nat)
    requires IsEnd(a, k, n) && Reached(a, k, h) && h <= |k| && InArena(At(a, k, h)) && Follows(At(a, k, h), k[h..])
    requires !Toward(At(a, k, h), k[h..]).LeafAt?
    ensures InArena(Toward(At(a, k, h), k[h..]))
    decreases n
  {
    hide Reached, At, Follows, Toward;
    NoWalk(a, 0, k, a);
    if n > 0 { Unroll(a, 0, k, n, a); }
    if h > 0 { Unroll(a, 0, k, h, a); }
    if h == 0 || n == 0 {
      assert k[0..] == k;
      if n > 0 { NextLoaded(a, k, n); }
      if h > 0 { NextLoaded(a, k, h); }
    } else {
      var e := StepLen(a);
      assert k[e..][n - e..] == k[n..] && k[e..][h - e..] == k[h..];
      WalkedOn(Toward(a, k), k[e..], h - e, n - e);
    }
  }

  // ----- recording a walk -----

  /** A proof that has every node up to the one at bit n also has every node before the next one,
      and every node of the key if the walk ends here. */
  lemma {:induction false} CoverStep(H: StarkHash, a: Shape, k: Bits, n: nat, proof: MultiProof)
    requires Canonical(Denote(a), |k|) && Reached(a, k, n) && Covers(H, Denote(a), k, n + 1, proof)
    ensures Covers(H, Denote(a), k, n + StepLen(At(a, k, n)), proof)
    ensures IsEnd(a, k, n) ==> Covers(H, Denote(a), k, |k|, proof)
  {
    hide Covers, Reached, At, Boundary, Sub, Tries.Hash;
    ReachedBoundary(a, k, n);
    AtCanonical(a, |k|, k, n);
    CoverNext(H, Denote(a), k, n, proof);
  }

  /** Recording the node at bit n extends the cover to it. */
  lemma {:induction false} CoverVisit(H: StarkHash, a: Shape, k: Bits, n: nat, sub: Shape, proof: MultiProof,
          proof': MultiProof)
    requires Reached(a, k, n) && sub == At(a, k, n) && !sub.LeafAt?
    requires Covers(H, Denote(a), k, n, proof) && Honest(H, Denote(a), proof)
    requires proof' == proof[Tries.Hash(H, Denote(sub)) := ProofNodeOf(H, Denote(sub))]
    ensures Covers(H, Denote(a), k, n + 1, proof') && Honest(H, Denote(a), proof')
  {
    ReachedBoundary(a, k, n);
    SubHasNode(H, Denote(a), k, n, Tries.Hash(H, Denote(sub)), ProofNodeOf(H, Denote(sub)));
  }

  lemma {:induction false} StandsInTree(H: StarkHash, height: nat, a: Shape, root: Option<RootHandle>, s: Store,
          nextKey: ArenaKey, k: Bits, n: nat)
    requires TreeInv(H, height, Some(a), root, s, nextKey) && Reached(a, k, n) && n <= |k|
    ensures Placed(At(a, k, n)) && Holds(H, At(a, k, n), k[..n], s)
    ensures Coherent(H, a, s.nodes) ==> Coherent(H, At(a, k, n), s.nodes)
  {
    AtPlaced(a, k, n);
    AtHolds(H, a, [], k, n, s);
    assert [] + k[..n] == k[..n];
    if Coherent(H, a, s.nodes) { AtCoherent(H, a, k, n, s.nodes); }
  }

  /** A walk starts at the loaded root. */
  lemma {:induction false} StartAtRoot(H: StarkHash, height: nat, a: Shape, id: ArenaKey, s: Store, nextKey: ArenaKey,
          k: Bits)
    requires TreeInv(H, height, Some(a), Some(RootHandle.Loaded(id)), s, nextKey)
    ensures Reached(a, k, 0) && At(a, k, 0) == a && InArena(a) && a.at.key == id
    ensures TraceTo(a, 0, k, 0) == [] && k[..0] == []
  {
  }

  /** Where a walk ended, the root is loaded. */
  lemma {:induction false} EndHasRoot(H: StarkHash, height: nat, a: Shape, root: Option<RootHandle>, s: Store,
          nextKey: ArenaKey, k: Bits, n: nat)
    requires TreeInv(H, height, Some(a), root, s, nextKey) && IsEnd(a, k, n)
    ensures root.Some?
  {
    AtPlaced(a, k, n);
  }

  lemma {:induction false} InvCanonical(H: StarkHash, height: nat, a: Shape, root: Option<RootHandle>, s: Store,
          nextKey: ArenaKey)
    requires TreeInv(H, height, Some(a), root, s, nextKey)
    ensures Canonical(Denote(a), height)
  {
  }

  /** The loaded root's record is in the arena. */
  lemma {:induction false} StandsInArena(H: StarkHash, height: nat, a: Shape, root: Option<RootHandle>, s: Store,
          nextKey: ArenaKey)
    requires TreeInv(H, height, Some(a), root, s, nextKey) && root.Some?
    ensures root.value.Loaded? && InArena(a) && a.at.key == root.value.key && root.value.key in s.nodes
  {
    assert a.at.key in Slots(a);
  }
}
