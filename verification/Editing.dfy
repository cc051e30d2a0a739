/** How set and delete change one subtree of the shape, and what that does to trie, arena and death row. */
module Editing {
  import opened Wrappers
  import opened BitStrings
  import opened Felts
  import opened PathCodec
  import opened Nodes
  import opened Tries
  import ProofNodes
  import opened Shapes
  import opened TreeState

  // ----- setting a value -----

  /** A replaced subtree that stands for an insertion makes the whole tree stand for the insertion. */
  lemma {:induction false} SetInv(H: StarkHash, height: nat, a: Shape, root: Option<RootHandle>, s: Store,
          nextKey: ArenaKey, k: Bits, n: nat, x: Shape, v: Felt, s': Store, nextKey': ArenaKey)
    requires TreeInv(H, height, Some(a), root, s, nextKey) && Reached(a, k, n) && |k| == height && v != 0
    requires n <= |k| && Replaces(H, At(a, k, n), x, k[..n], s.nodes.Keys - Slots(At(a, k, n)), s, s')
    requires s'.nodes.Keys == s.nodes.Keys - Slots(At(a, k, n)) + Slots(x)
    requires forall key :: key in s'.nodes ==> key < nextKey'
    requires Denote(x) == TrieInsert(Denote(At(a, k, n)), k[n..], v) && s.dead <= s'.dead
    ensures var b := Graft(a, k, n, x);
            TreeInv(H, height, Some(b), root, s', nextKey') && Denote(b) == TrieInsert(Denote(a), k, v)
  {
    var b := Graft(a, k, n, x);
    GraftInsert(a, k, n, x, v);
    InsertCanonical(Denote(a), k, v);
    forall e | e in s.db && e.NodeEntry? ensures e in s'.dead || IsLive(Some(Denote(b)), e) {
      if e !in s.dead { InsertKeepsNodes(Denote(a), k, v, PathOf(e.bytes)); }
    }
    ReplaceInv(H, height, a, root, s, nextKey, k, n, x, s', nextKey');
  }

  /** Overwriting the leaf below a loaded node. */
  lemma {:induction false} LeafReplaces(H: StarkHash, sub: Shape, p: Bits, rest: Bits, v: Felt, others: set<ArenaKey>,
          s: Store, s': Store)
    requires Placed(sub) && Holds(H, sub, p, s) && InArena(sub) && Follows(sub, rest) && Toward(sub, rest).LeafAt?
    requires Slots(sub) !! others && sub.at.key in s.nodes && (s.nodes[sub.at.key].Binary? ==> rest != [])
    requires s' == s.(nodes := s.nodes[sub.at.key := PointTo(s.nodes[sub.at.key], rest, NodeHandle.Hash(v))])
    ensures Replaces(H, sub, Redirect(sub, rest, LeafAt(v)), p, others, s, s')
    ensures Slots(Redirect(sub, rest, LeafAt(v))) == Slots(sub)
    ensures Denote(Redirect(sub, rest, LeafAt(v))) == TrieInsert(Denote(sub), rest, v)
  {
    RedirectInsert(sub, rest, LeafAt(v), v);
    if sub.BranchAt? {
      HoldsFrame(H, if rest[0] then sub.left else sub.right, p + [!rest[0]], s, s');
    }
  }

  /** A stem above c in the given slot, or c itself when the path is empty. */
  function MkStemAt(key: ArenaKey, path: Bits, c: Shape): Shape {
    if path == [] then c else StemAt(Slot(key), path, c)
  }

  /** The slot a stem takes, if it has any bits. */
  function StemSlot(key: ArenaKey, path: Bits): (r: set<ArenaKey>)
    ensures r <= {key}
  {
    if path == [] then {} else {key}
  }

  /** The branch between the new leaf's side and the old child's side. */
  function Fork(at: ArenaKey, newGoesRight: bool, kept: Shape, added: Shape): Shape {
    if newGoesRight then BranchAt(Slot(at), kept, added) else BranchAt(Slot(at), added, kept)
  }

  /** The three arena keys a split may take. */
  datatype Fresh = Fresh(newEdge: ArenaKey, oldEdge: ArenaKey, branch: ArenaKey) {
    ghost predicate Apart(used: set<ArenaKey>) {
      newEdge !in used && oldEdge !in used && branch !in used && newEdge != oldEdge && newEdge != branch
        && oldEdge != branch
    }
  }

  /** The shape after a stem above c was split: a leading stem, the branch, and on its two sides the old child
      and the new leaf, each below what is left of its path. */
  function SplitShape(own: ArenaKey, lead: Bits, newGoesRight: bool, oldPath: Bits, c: Shape, newPath: Bits, v: Felt,
          f: Fresh): Shape {
    MkStemAt(own, lead, Fork(if lead == [] then own else f.branch, newGoesRight,
                             MkStemAt(f.oldEdge, oldPath, c), MkStemAt(f.newEdge, newPath, LeafAt(v))))
  }

  /** The slots it takes besides those of c and its own. */
  function SplitTakes(lead: Bits, oldPath: Bits, newPath: Bits, f: Fresh): set<ArenaKey> {
    StemSlot(f.newEdge, newPath) + StemSlot(f.oldEdge, oldPath) + StemSlot(f.branch, lead)
  }

  lemma {:induction false} MkStemDenote(key: ArenaKey, path: Bits, c: Shape)
    ensures Denote(MkStemAt(key, path, c)) == MkStem(path, Denote(c))
  {
  }

  lemma {:induction false} SplitDenote(own: ArenaKey, q: Bits, c: Shape, rest: Bits, v: Felt, n: nat, f: Fresh)
    requires n < |q| && n < |rest| && n == CommonLen(q, rest)
    ensures Denote(SplitShape(own, q[..n], rest[n], q[n + 1..], c, rest[n + 1..], v, f)) ==
              TrieInsert(Stem(q, Denote(c)), rest, v)
  {
    var added := MkStemAt(f.newEdge, rest[n + 1..], LeafAt(v));
    var kept := MkStemAt(f.oldEdge, q[n + 1..], c);
    MkStemDenote(f.newEdge, rest[n + 1..], LeafAt(v));
    MkStemDenote(f.oldEdge, q[n + 1..], c);
    MkStemDenote(own, q[..n], Fork(if q[..n] == [] then own else f.branch, rest[n], kept, added));
    assert Denote(LeafAt(v)) == Leaf(v);
  }

  lemma {:induction false} MkStemSlots(key: ArenaKey, path: Bits, c: Shape)
    requires Placed(c) && (path != [] ==> key !in Slots(c))
    ensures Placed(MkStemAt(key, path, c)) && Slots(MkStemAt(key, path, c)) == Slots(c) + StemSlot(key, path)
    ensures path != [] ==> InArena(MkStemAt(key, path, c)) && MkStemAt(key, path, c).at == Slot(key)
    ensures path == [] ==> MkStemAt(key, path, c) == c
  {
  }

  lemma {:induction false} ForkSlots(at: ArenaKey, newGoesRight: bool, kept: Shape, added: Shape)
    requires Placed(kept) && Placed(added) && Slots(kept) !! Slots(added) && at !in Slots(kept) + Slots(added)
    ensures var f := Fork(at, newGoesRight, kept, added);
            InArena(f) && f.at == Slot(at) && Placed(f) && Slots(f) == Slots(kept) + Slots(added) + {at}
  {
  }

  lemma {:induction false} SplitSlots(own: ArenaKey, lead: Bits, newGoesRight: bool, oldPath: Bits, c: Shape,
          newPath: Bits, v: Felt, f: Fresh)
    requires Placed(c) && own !in Slots(c) && f.Apart(Slots(c) + {own})
    ensures var x := SplitShape(own, lead, newGoesRight, oldPath, c, newPath, v, f);
            && InArena(x) && x.at == Slot(own) && Placed(x)
            && Slots(x) == Slots(c) + {own} + SplitTakes(lead, oldPath, newPath, f)
  {
    assert Placed(LeafAt(v)) && Slots(LeafAt(v)) == {};
    OwnOrBranch(own, f.branch, lead);
    hide Placed, Slots, MkStemAt, Fork, InArena, StemSlot;
    var added := MkStemAt(f.newEdge, newPath, LeafAt(v));
    var kept := MkStemAt(f.oldEdge, oldPath, c);
    var at := if lead == [] then own else f.branch;
    MkStemSlots(f.newEdge, newPath, LeafAt(v));
    MkStemSlots(f.oldEdge, oldPath, c);
    ForkSlots(at, newGoesRight, kept, added);
    MkStemSlots(own, lead, Fork(at, newGoesRight, kept, added));
  }

  lemma {:induction false} OwnOrBranch(own: ArenaKey, branchKey: ArenaKey, path: Bits)
    ensures {if path == [] then own else branchKey} + StemSlot(own, path) == {own} + StemSlot(branchKey, path)
  {
  }

  /** What takes the split node's place in its own slot. */
  function SplitTop(lead: Bits, newGoesRight: bool, addedHandle: NodeHandle, keptHandle: NodeHandle, f: Fresh,
          d: nat): Node {
    if lead != [] then Edge(None, d, lead, InMemory(f.branch))
    else SplitBranch(newGoesRight, addedHandle, keptHandle, d)
  }

  function SplitBranch(newGoesRight: bool, addedHandle: NodeHandle, keptHandle: NodeHandle, height: nat): Node {
    if newGoesRight then Binary(None, height, keptHandle, addedHandle)
    else Binary(None, height, addedHandle, keptHandle)
  }

  function SideHandle(key: ArenaKey, path: Bits, child: NodeHandle): NodeHandle {
    if path == [] then child else InMemory(key)
  }

  /** The new arena entries of a split at depth d: up to two edges, and the branch if an edge leads to it. */
  predicate SplitEntries(lead: Bits, newGoesRight: bool, oldPath: Bits, oldChild: NodeHandle, newPath: Bits,
          newChild: NodeHandle, f: Fresh, d: nat, nodes: NodeMap) {
    var m := d + |lead|;
    && (newPath != [] ==> f.newEdge in nodes && nodes[f.newEdge] == Edge(None, m + 1, newPath, newChild))
    && (oldPath != [] ==> f.oldEdge in nodes && nodes[f.oldEdge] == Edge(None, m + 1, oldPath, oldChild))
    && (lead != [] ==>
          && f.branch in nodes
          && nodes[f.branch] == SplitBranch(newGoesRight, SideHandle(f.newEdge, newPath, newChild),
                                            SideHandle(f.oldEdge, oldPath, oldChild), m))
  }

  /** The arena records of a split at depth d: up to two new edges, the branch, and the leading edge. */
  predicate SplitRecorded(H: StarkHash, own: ArenaKey, lead: Bits, newGoesRight: bool, oldPath: Bits, c: Shape,
          newPath: Bits, v: Felt, f: Fresh, d: nat, nodes: NodeMap) {
    && SplitEntries(lead, newGoesRight, oldPath, HandleOf(H, c), newPath, NodeHandle.Hash(v), f, d, nodes)
    && own in nodes
    && nodes[own] == SplitTop(lead, newGoesRight, SideHandle(f.newEdge, newPath, NodeHandle.Hash(v)),
                              SideHandle(f.oldEdge, oldPath, HandleOf(H, c)), f, d)
  }

  /** Putting the top record into the split edge's own slot completes the records. */
  lemma {:induction false} ForkRecorded(H: StarkHash, own: ArenaKey, lead: Bits, newGoesRight: bool, oldPath: Bits,
          c: Shape, newPath: Bits, v: Felt, f: Fresh, d: nat, nodes: NodeMap, newNode: Node)
    requires SplitEntries(lead, newGoesRight, oldPath, HandleOf(H, c), newPath, NodeHandle.Hash(v), f, d, nodes)
    requires newNode == SplitTop(lead, newGoesRight, SideHandle(f.newEdge, newPath, NodeHandle.Hash(v)),
                                 SideHandle(f.oldEdge, oldPath, HandleOf(H, c)), f, d)
    requires own != f.newEdge && own != f.oldEdge && own != f.branch
    ensures SplitRecorded(H, own, lead, newGoesRight, oldPath, c, newPath, v, f, d, nodes[own := newNode])
  {
  }

  lemma {:induction false} SplitHolds(H: StarkHash, own: ArenaKey, p: Bits, lead: Bits, newGoesRight: bool,
          oldPath: Bits, c: Shape, newPath: Bits, v: Felt, f: Fresh, s: Store)
    requires |p| + |lead| + 1 < 256 && Holds(H, c, ((p + lead) + [!newGoesRight]) + oldPath, s)
    requires SplitRecorded(H, own, lead, newGoesRight, oldPath, c, newPath, v, f, |p|, s.nodes)
    ensures Holds(H, SplitShape(own, lead, newGoesRight, oldPath, c, newPath, v, f), p, s)
  {
    var added := MkStemAt(f.newEdge, newPath, LeafAt(v));
    var kept := MkStemAt(f.oldEdge, oldPath, c);
    var at := if lead == [] then own else f.branch;
    MkStemHolds(H, f.oldEdge, p + lead + [!newGoesRight], oldPath, c, s);
    MkStemHolds(H, f.newEdge, p + lead + [newGoesRight], newPath, LeafAt(v), s);
    ForkHolds(H, at, p + lead, newGoesRight, kept, added, s);
    MkStemHolds(H, own, p, lead, Fork(at, newGoesRight, kept, added), s);
  }

  lemma {:induction false} MkStemHolds(H: StarkHash, key: ArenaKey, p: Bits, path: Bits, c: Shape, s: Store)
    requires Holds(H, c, p + path, s) && |p| < 256
    requires path != [] ==> key in s.nodes && s.nodes[key] == Edge(None, |p|, path, HandleOf(H, c))
    ensures Holds(H, MkStemAt(key, path, c), p, s)
    ensures HandleOf(H, MkStemAt(key, path, c)) == if path == [] then HandleOf(H, c) else InMemory(key)
  {
    if path == [] { assert p + path == p; }
  }

  lemma {:induction false} ForkHolds(H: StarkHash, at: ArenaKey, p: Bits, newGoesRight: bool, kept: Shape,
          added: Shape, s: Store)
    requires Holds(H, kept, p + [!newGoesRight], s) && Holds(H, added, p + [newGoesRight], s) && |p| < 256
    requires at in s.nodes
    requires s.nodes[at] == if newGoesRight then Binary(None, |p|, HandleOf(H, kept), HandleOf(H, added))
                            else Binary(None, |p|, HandleOf(H, added), HandleOf(H, kept))
    ensures Holds(H, Fork(at, newGoesRight, kept, added), p, s)
    ensures HandleOf(H, Fork(at, newGoesRight, kept, added)) == InMemory(at)
  {
  }

  lemma {:induction false} SplitPosition(p: Bits, q: Bits, n: nat, bit: bool)
    requires n < |q| && q[n] == bit
    ensures ((p + q[..n]) + [bit]) + q[n + 1..] == p + q
  {
  }

  /** Splitting a loaded stem replaces it by the shape the insertion stands for. */
  lemma {:induction false} SplitReplaces(H: StarkHash, sub: Shape, p: Bits, rest: Bits, v: Felt, n: nat, f: Fresh,
          others: set<ArenaKey>, s: Store, s': Store)
    requires Placed(sub) && Holds(H, sub, p, s) && InArena(sub) && sub.StemAt? && Slots(sub) !! others
    requires n < |sub.path| && n < |rest| && n == CommonLen(sub.path, rest) && |p| + |rest| < 256
    requires f.Apart(Slots(sub) + others)
    requires SplitRecorded(H, sub.at.key, sub.path[..n], rest[n], sub.path[n + 1..], sub.child, rest[n + 1..], v, f,
               |p|, s'.nodes)
    requires SameNodes(Slots(sub.child) + others, s, s') && s'.db == s.db && s'.dead == s.dead + {SplitDeathKey(p)}
    ensures var x := SplitShape(sub.at.key, sub.path[..n], rest[n], sub.path[n + 1..], sub.child, rest[n + 1..], v, f);
            && Replaces(H, sub, x, p, others, s, s')
            && Denote(x) == TrieInsert(Denote(sub), rest, v)
            && Slots(x) == Slots(sub) + SplitTakes(sub.path[..n], sub.path[n + 1..], rest[n + 1..], f)
  {
    hide SplitShape, SplitRecorded, CommonLen, TrieInsert, HoldsTop, Refers, NodeKey, StemSlot;
    var own, q, c := sub.at.key, sub.path, sub.child;
    var lead, oldPath, newPath := q[..n], q[n + 1..], rest[n + 1..];
    SplitSlots(own, lead, rest[n], oldPath, c, newPath, v, f);
    SplitDenote(own, q, c, rest, v, n, f);
    HoldsFrame(H, c, p + q, s, s');
    SplitPosition(p, q, n, !rest[n]);
    SplitHolds(H, own, p, lead, rest[n], oldPath, c, newPath, v, f, s');
  }

  /** Where a seek ends at a stem the key leaves, the stem has bits on both sides of the split. */
  lemma {:induction false} SplitPoint(H: StarkHash, height: nat, a: Shape, root: Option<RootHandle>, s: Store,
          nextKey: ArenaKey, k: Bits, n: nat, sub: Shape, edge: Node, m: nat)
    requires TreeInv(H, height, Some(a), root, s, nextKey) && |k| == height && IsEnd(a, k, n)
    requires sub == At(a, k, n) && sub.StemAt? && sub.at.key in s.nodes && edge == s.nodes[sub.at.key]
    requires edge.Edge? && m == |edge.CommonPath(k)| && edge.height + m < height
    ensures edge.height == n && edge.path == sub.path && edge.child == HandleOf(H, sub.child)
    ensures forall e :: e in s.nodes ==> e < nextKey
    ensures m == CommonLen(sub.path, k[n..]) && m < |sub.path| && m < |k[n..]|
    ensures edge.CommonPath(k) == sub.path[..m] && k[n..][m] == k[n + m] && k[n..][m + 1..] == k[n + m + 1..]
  {
    ReadNode(H, height, a, root, s, nextKey, k, n, sub);
  }

  /** The arena after a split, and the tree it stands for. */
  lemma {:induction false} SplitInv(H: StarkHash, height: nat, a: Shape, root: Option<RootHandle>, s: Store,
          nextKey: ArenaKey, k: Bits, n: nat, sub: Shape, v: Felt, m: nat, f: Fresh, s': Store, nextKey': ArenaKey)
    requires TreeInv(H, height, Some(a), root, s, nextKey) && |k| == height && v != 0
    requires Reached(a, k, n) && n < height && sub == At(a, k, n) && InArena(sub) && sub.StemAt?
    requires m < |sub.path| && m < |k[n..]| && m == CommonLen(sub.path, k[n..])
    requires f.newEdge >= nextKey && f.oldEdge >= nextKey && f.branch >= nextKey
    requires f.newEdge != f.oldEdge && f.newEdge != f.branch && f.oldEdge != f.branch
    requires SplitRecorded(H, sub.at.key, sub.path[..m], k[n..][m], sub.path[m + 1..], sub.child, k[n..][m + 1..], v,
               f, n, s'.nodes)
    requires forall e :: e in s.nodes && e != sub.at.key ==> e in s'.nodes && s'.nodes[e] == s.nodes[e]
    requires s'.nodes.Keys == s.nodes.Keys + SplitTakes(sub.path[..m], sub.path[m + 1..], k[n..][m + 1..], f)
    requires nextKey <= nextKey' && forall e :: e in s'.nodes && e !in s.nodes ==> e < nextKey'
    requires s'.db == s.db && s'.dead == s.dead + {SplitDeathKey(k[..n])}
    ensures var x := SplitShape(sub.at.key, sub.path[..m], k[n..][m], sub.path[m + 1..], sub.child, k[n..][m + 1..],
              v, f);
            && TreeInv(H, height, Some(Graft(a, k, n, x)), root, s', nextKey')
            && Denote(Graft(a, k, n, x)) == TrieInsert(Denote(a), k, v)
  {
    hide Denote, Canonical, Holds, Refers, HoldsTop, At, Graft, NoLeak, Reached, SplitShape, SplitRecorded, SplitTakes,
         CommonLen, TrieInsert, StemSlot;
    StandsInTree(H, height, a, root, s, nextKey, k, n);
    AtPlaced(a, k, n);
    var others := s.nodes.Keys - Slots(sub);
    StemKeepsOwn(sub);
    SplitReplaces(H, sub, k[..n], k[n..], v, m, f, others, s, s');
    var x := SplitShape(sub.at.key, sub.path[..m], k[n..][m], sub.path[m + 1..], sub.child, k[n..][m + 1..], v, f);
    SetInv(H, height, a, root, s, nextKey, k, n, x, v, s', nextKey');
  }

  lemma {:induction false} StemKeepsOwn(a: Shape)
    requires Placed(a) && InArena(a) && a.StemAt?
    ensures a.at.key !in Slots(a.child) && Slots(a) == Slots(a.child) + {a.at.key}
  {
  }

  /** Where a seek ends with its child a leaf on the key, or at a stem that leaves the key. */
  lemma {:induction false} SetPoint(H: StarkHash, height: nat, a: Shape, root: Option<RootHandle>, s: Store,
          nextKey: ArenaKey, k: Bits, n: nat, sub: Shape, node: Node)
    requires TreeInv(H, height, Some(a), root, s, nextKey) && |k| == height && IsEnd(a, k, n)
    requires sub == At(a, k, n) && sub.at.key in s.nodes && node == s.nodes[sub.at.key]
    ensures node.height == n && n < height && (node.Edge? <==> sub.StemAt?)
    ensures node.Edge? ==> (n + |node.CommonPath(k)| == height <==> Follows(sub, k[n..]))
    ensures node.Edge? ==> n + |node.CommonPath(k)| <= height
    ensures node.Binary? ==> Follows(sub, k[n..]) && n + 1 == height && k[n..][0] == k[n]
  {
    hide Holds, HoldsTop, NoLeak, Placed, Slots, At, Reached, TreeInv, DbNode, NodeKey, CommonLen;
    ReadNode(H, height, a, root, s, nextKey, k, n, sub);
    if node.Edge? {
      assert node.CommonPath(k) == sub.path[..CommonLen(sub.path, k[n..])];
      if Follows(sub, k[n..]) {
        assert CommonLen(sub.path, k[n..]) == |sub.path|;
        assert Canonical(Denote(sub.child), height - n - |sub.path|);
      }
    }
  }

  /** The arena after a leaf was overwritten, and the tree it stands for. */
  lemma {:induction false} LeafInv(H: StarkHash, height: nat, a: Shape, root: Option<RootHandle>, s: Store,
          nextKey: ArenaKey, k: Bits, n: nat, sub: Shape, v: Felt, s': Store)
    requires TreeInv(H, height, Some(a), root, s, nextKey) && |k| == height && v != 0
    requires IsEnd(a, k, n) && sub == At(a, k, n) && Follows(sub, k[n..])
    requires sub.at.key in s.nodes && (s.nodes[sub.at.key].Binary? ==> k[n..] != [])
    requires s' == s.(nodes := s.nodes[sub.at.key := PointTo(s.nodes[sub.at.key], k[n..], NodeHandle.Hash(v))])
    ensures var b := Graft(a, k, n, Redirect(sub, k[n..], LeafAt(v)));
            TreeInv(H, height, Some(b), root, s', nextKey) && Denote(b) == TrieInsert(Denote(a), k, v)
  {
    hide Denote, Canonical, Holds, Refers, HoldsTop, Graft, NoLeak, TrieInsert, Placed, Slots;
    StandsInTree(H, height, a, root, s, nextKey, k, n);
    AtPlaced(a, k, n);
    LeafReplaces(H, sub, k[..n], k[n..], v, s.nodes.Keys - Slots(sub), s, s');
    SlotsInArena(a, s);
    SetInv(H, height, a, root, s, nextKey, k, n, Redirect(sub, k[n..], LeafAt(v)), v, s', nextKey);
  }

  lemma {:induction false} SlotsInArena(a: Shape, s: Store)
    ensures InArena(a) ==> a.at.key in Slots(a)
  {
  }

  /** The first leaf of an empty tree. */
  lemma {:induction false} FirstLeafInv(H: StarkHash, height: nat, root: Option<RootHandle>, s: Store, key: ArenaKey,
          k: Bits, v: Felt, s': Store)
    requires TreeInv(H, height, None, root, s, key) && |k| == height && v != 0
    requires s' == s.(nodes := s.nodes[key := Edge(None, 0, k, NodeHandle.Hash(v))])
    ensures TreeInv(H, height, Some(StemAt(Slot(key), k, LeafAt(v))), Some(RootHandle.Loaded(key)), s', key + 1)
    ensures Coherent(H, StemAt(Slot(key), k, LeafAt(v)), s'.nodes)
    ensures Denote(StemAt(Slot(key), k, LeafAt(v))) == RootInsert(None, k, v)
  {
  }

  // ----- deleting -----

  /** Every node position of t that t' has lost, seen from position p, is on the death row. */
  ghost predicate Buries(t: Trie, t': Trie, p: Bits, dead: set<TrieKey>) {
    forall q: Bits :: NodeAt(t, q) && !NodeAt(t', q) ==> NodeKey(p + q) in dead
  }

  lemma {:induction false} GraftBuries(a: Shape, p: Bits, k: Bits, n: nat, x: Shape, dead: set<TrieKey>)
    requires Reached(a, k, n) && n <= |k| && Buries(Denote(At(a, k, n)), Denote(x), p + k[..n], dead)
    ensures Buries(Denote(a), Denote(Graft(a, k, n, x)), p, dead)
    decreases a
  {
    hide Reached, At, Graft, Redirect, Buries, NodeKey;
    if n == 0 {
      NoWalk(a, 0, k, x);
      assert p + k[..0] == p;
    } else {
      Unroll(a, 0, k, n, x);
      var e := StepLen(a);
      StepPosition(a, k);
      PrefixInTwo(p, k, e, n);
      GraftBuries(Toward(a, k), p + k[..e], k[e..], n - e, x, dead);
      RedirectBuries(a, p, k, Graft(Toward(a, k), k[e..], n - e, x), dead);
    }
  }

  /** A node lost by replacing the subtree one step along the key was in that subtree. */
  lemma {:induction false} LostBelow(a: Shape, k: Bits, x: Shape, q: Bits)
    requires Follows(a, k) && NodeAt(Denote(a), q) && !NodeAt(Denote(Redirect(a, k, x)), q)
    ensures var e := StepLen(a);
            && e <= |k| && k[..e] <= q && NodeAt(Denote(Toward(a, k)), q[e..]) && !NodeAt(Denote(x), q[e..])
  {
    assert q != [];
    if a.BranchAt? { assert k[..1] == [k[0]] && q == [q[0]] + q[1..]; }
  }

  lemma {:induction false} RedirectBuries(a: Shape, p: Bits, k: Bits, x: Shape, dead: set<TrieKey>)
    requires Follows(a, k) && Buries(Denote(Toward(a, k)), Denote(x), p + k[..StepLen(a)], dead)
    ensures Buries(Denote(a), Denote(Redirect(a, k, x)), p, dead)
  {
    hide NodeKey;
    var e := StepLen(a);
    StepPosition(a, k);
    forall q: Bits | NodeAt(Denote(a), q) && !NodeAt(Denote(Redirect(a, k, x)), q) ensures NodeKey(p + q) in dead {
      LostBelow(a, k, x, q);
      assert (p + k[..e]) + q[e..] == p + q;
    }
  }

  /** A replaced subtree that stands for a deletion makes the whole tree stand for the deletion. */
  lemma {:induction false} DeleteInv(H: StarkHash, height: nat, a: Shape, root: Option<RootHandle>, s: Store,
          nextKey: ArenaKey, k: Bits, n: nat, x: Shape, s': Store)
    requires TreeInv(H, height, Some(a), root, s, nextKey) && Reached(a, k, n) && |k| == height && n <= |k|
    requires Replaces(H, At(a, k, n), x, k[..n], s.nodes.Keys - Slots(At(a, k, n)), s, s')
    requires s'.nodes.Keys == s.nodes.Keys - Slots(At(a, k, n)) + Slots(x) && s'.nodes.Keys <= s.nodes.Keys
    requires TrieDelete(Denote(At(a, k, n)), k[n..]) == Some(Denote(x)) && !BelowStem(a, k, n)
    requires s.dead <= s'.dead && Buries(Denote(At(a, k, n)), Denote(x), k[..n], s'.dead)
    ensures var b := Graft(a, k, n, x);
            TreeInv(H, height, Some(b), root, s', nextKey) && TrieDelete(Denote(a), k) == Some(Denote(b))
  {
    var b := Graft(a, k, n, x);
    GraftDelete(a, k, n, x);
    DeleteCanonical(Denote(a), k);
    assert [] + k[..n] == k[..n];
    GraftBuries(a, [], k, n, x, s'.dead);
    forall e | e in s.db && e.NodeEntry? ensures e in s'.dead || IsLive(Some(Denote(b)), e) {
      var q := PathOf(e.bytes);
      assert [] + q == q;
      if e !in s.dead && !NodeAt(Denote(b), q) { assert NodeAt(Denote(a), q); }
    }
    ReplaceInv(H, height, a, root, s, nextKey, k, n, x, s', nextKey);
  }

  /** The child of a branch that is left when the other one goes. */
  function Survivor(br: Shape, dir: bool): Shape
    requires br.BranchAt?
  {
    if dir then br.right else br.left
  }

  /** Its subtree below the bits the new stem takes over. */
  function SurvivorChild(sib: Shape): Shape {
    if sib.StemAt? then sib.child else sib
  }

  function SurvivorPath(dir: bool, sib: Shape): Bits {
    [dir] + if sib.StemAt? then sib.path else []
  }

  /** The arena slot the survivor gives up. */
  function SurvivorSlot(sib: Shape): set<ArenaKey> {
    if sib.StemAt? then OwnSlot(sib) else {}
  }

  /** The death row entry of a survivor that is fused away. */
  function SurvivorDead(sib: Shape, pos: Bits): set<TrieKey> {
    if sib.StemAt? then {NodeKey(pos)} else {}
  }

  /** The survivor below its branch. */
  lemma {:induction false} SurvivorBelow(H: StarkHash, height: nat, a: Shape, root: Option<RootHandle>, s: Store,
          nextKey: ArenaKey, k: Bits, n: nat, br: Shape, dir: bool)
    requires TreeInv(H, height, Some(a), root, s, nextKey) && |k| == height && Reached(a, k, n) && n < height
    requires br == At(a, k, n) && InArena(br) && br.BranchAt?
    ensures var sib, pos := Survivor(br, dir), k[..n] + [dir];
            && Holds(H, sib, pos, s) && Canonical(Denote(sib), height - n - 1)
            && (if sib.LeafAt? then |pos| == height else HoldsTop(H, sib, pos, s))
  {
    hide At, Reached, Tries.Hash, Refers, NodeKey, TreeInv, Slots;
    StandsInTree(H, height, a, root, s, nextKey, k, n);
    InvCanonical(H, height, a, root, s, nextKey);
    AtCanonical(a, height, k, n);
  }

  /** What is read about the survivor at its position: its record, in the arena or on disk, and nothing there for a
      leaf. */
  lemma {:induction false} SurvivorRead(H: StarkHash, height: nat, a: Shape, root: Option<RootHandle>, s: Store,
          nextKey: ArenaKey, k: Bits, n: nat, br: Shape, dir: bool)
    requires TreeInv(H, height, Some(a), root, s, nextKey) && |k| == height && Reached(a, k, n) && n < height
    requires br == At(a, k, n) && InArena(br) && br.BranchAt?
    ensures var sib, pos := Survivor(br, dir), k[..n] + [dir];
            && (InArena(sib) ==> sib.at.key in s.nodes && Refers(H, s.nodes[sib.at.key], sib, n + 1))
            && (!sib.LeafAt? && sib.at.Disk? ==>
                  NodeKey(pos) !in s.dead && DbNode(s.db, pos).Some? && Refers(H, DbNode(s.db, pos).value, sib, n + 1))
            && (sib.LeafAt? ==> NodeKey(pos) in s.dead || DbNode(s.db, pos).None?)
  {
    var sib, pos := Survivor(br, dir), k[..n] + [dir];
    hide At, Reached, Canonical, Denote, Slots, Placed, NoLeak, NodeAt, TreeInv, PathOf, Holds, Tries.Hash, Refers,
         NodeKey, HoldsTop, DbNode;
    SurvivorBelow(H, height, a, root, s, nextKey, k, n, br, dir);
    if !sib.LeafAt? { TopRecord(H, sib, pos, s); }
    HeightBound(H, height, a, root, s, nextKey);
    if sib.LeafAt? { LiveIsShort(H, height, a, root, s, nextKey, pos); }
  }

  lemma {:induction false} TopRecord(H: StarkHash, a: Shape, p: Bits, s: Store)
    requires !a.LeafAt? && HoldsTop(H, a, p, s)
    ensures InArena(a) ==> a.at.key in s.nodes && Refers(H, s.nodes[a.at.key], a, |p|)
    ensures a.at.Disk? ==> NodeKey(p) !in s.dead && DbNode(s.db, p).Some? && Refers(H, DbNode(s.db, p).value, a, |p|)
  {
  }

  lemma {:induction false} HeightBound(H: StarkHash, height: nat, a: Shape, root: Option<RootHandle>, s: Store,
          nextKey: ArenaKey)
    requires TreeInv(H, height, Some(a), root, s, nextKey)
    ensures 1 <= height <= 251
  {
  }

  /** No entry at the depth of the leaves is both stored and spared. */
  lemma {:induction false} LiveIsShort(H: StarkHash, height: nat, a: Shape, root: Option<RootHandle>, s: Store,
          nextKey: ArenaKey, pos: Bits)
    requires TreeInv(H, height, Some(a), root, s, nextKey) && |pos| >= height && |pos| < 256
    ensures NodeKey(pos) in s.db ==> NodeKey(pos) in s.dead
  {
    hide Holds, Placed, Slots;
    if NodeKey(pos) in s.db && NodeKey(pos) !in s.dead {
      NodeAtShort(Denote(a), height, pos);
    }
  }

  /** Taking a branch with a doomed child away leaves the survivor below a stem. */
  lemma {:induction false} BranchDeletes(br: Shape, rest: Bits)
    requires br.BranchAt? && rest != [] && TrieDelete(Denote(Toward(br, rest)), rest[1..]).None?
    ensures var sib := Survivor(br, !rest[0]);
            TrieDelete(Denote(br), rest) == Some(Stem(SurvivorPath(!rest[0], sib), Denote(SurvivorChild(sib))))
  {
    assert [!rest[0]] + [] == [!rest[0]];
  }

  /** A leaf, possibly below a single stem: all that a seek can end at for a present key. */
  predicate Doomed(d: Shape, rest: Bits) {
    (d.LeafAt? && rest == []) || (d.StemAt? && d.child.LeafAt? && d.path == rest)
  }

  lemma {:induction false} DoomedDeletes(d: Shape, rest: Bits)
    requires Doomed(d, rest)
    ensures TrieDelete(Denote(d), rest).None?
    ensures forall q: Bits :: NodeAt(Denote(d), q) ==> q == [] && d.StemAt?
  {
    if d.StemAt? { assert rest[|d.path|..] == []; }
  }

  lemma {:induction false} BranchBuries(br: Shape, p: Bits, rest: Bits, dead: set<TrieKey>)
    requires br.BranchAt? && rest != [] && Doomed(Toward(br, rest), rest[1..])
    requires var dir := !rest[0];
             && (Toward(br, rest).StemAt? ==> NodeKey(p + [rest[0]]) in dead)
             && SurvivorDead(Survivor(br, dir), p + [dir]) <= dead
    ensures var sib := Survivor(br, !rest[0]);
            Buries(Denote(br), Stem(SurvivorPath(!rest[0], sib), Denote(SurvivorChild(sib))), p, dead)
  {
    var dir := !rest[0];
    var sib := Survivor(br, dir);
    var t := Stem(SurvivorPath(dir, sib), Denote(SurvivorChild(sib)));
    DoomedDeletes(Toward(br, rest), rest[1..]);
    forall q: Bits | NodeAt(Denote(br), q) ensures NodeAt(t, q) || NodeKey(p + q) in dead {
      if q != [] {
        assert q == [q[0]] + q[1..];
        if q[0] != dir {
          assert NodeAt(Denote(Toward(br, rest)), q[1..]);
          assert q == [rest[0]];
        } else if sib.StemAt? {
          assert NodeAt(Denote(sib), q[1..]) && q[|[dir]|..] == q[1..];
          if q[1..] == [] { assert q == [dir]; } else { FusedKeeps([dir], sib.path, Denote(sib.child), q); }
        } else {
          assert SurvivorPath(dir, sib) == [dir] && [dir] <= q;
        }
      }
    }
  }

  lemma {:induction false} FusedKeeps(p1: Bits, p2: Bits, u: Trie, q: Bits)
    requires p1 <= q && q[|p1|..] != [] && NodeAt(Stem(p2, u), q[|p1|..])
    ensures NodeAt(Stem(p1 + p2, u), q)
  {
    assert q[|p1|..][|p2|..] == q[|p1 + p2|..] && p1 + p2 <= q;
  }

  /** A stem above the branch takes the fused bits over as well. */
  lemma {:induction false} StemBuries(pp: Bits, t: Trie, path: Bits, u: Trie, p: Bits, dead: set<TrieKey>)
    requires Buries(t, Stem(path, u), p + pp, dead) && NodeKey(p + pp) in dead
    ensures Buries(Stem(pp, t), Stem(pp + path, u), p, dead)
  {
    forall q: Bits | NodeAt(Stem(pp, t), q) ensures NodeAt(Stem(pp + path, u), q) || NodeKey(p + q) in dead {
      if q != [] {
        var r := q[|pp|..];
        assert q == pp + r && (p + pp) + r == p + q;
        if r == [] {
          assert q == pp;
        } else if NodeAt(Stem(path, u), r) {
          FusedKeeps(pp, path, u, q);
        }
      }
    }
  }

  /** What a deletion at a branch adds to the death row: the branch itself, the doomed child, a fused survivor. */
  predicate DeleteDead(p: Bits, dir: bool, sib: Shape, s: Store, s': Store) {
    forall e :: e in s'.dead && e !in s.dead ==>
      e == NodeKey(p) || e == NodeKey(p + [!dir]) || e in SurvivorDead(sib, p + [dir])
  }

  lemma {:induction false} DeleteSpares(p: Bits, dir: bool, sib: Shape, s: Store, s': Store)
    requires DeleteDead(p, dir, sib, s, s') && |p| < 255 && (sib.StemAt? ==> sib.path != [])
    ensures SparesBelow(p + SurvivorPath(dir, sib), s, s') && DeadUnder(p, s, s')
  {
    var pos := p + SurvivorPath(dir, sib);
    forall e | e in s'.dead && e !in s.dead ensures !(pos <= PathOf(e.bytes)) && p <= PathOf(e.bytes) {
      assert pos[|p|] == dir;
      assert (p + [!dir])[|p|] == !dir;
    }
  }

  /** The survivor's subtree is untouched by everything a deletion adds to the death row. */
  lemma {:induction false} SurvivorHolds(H: StarkHash, br: Shape, p: Bits, dir: bool, s: Store, s': Store)
    requires Holds(H, br, p, s) && br.BranchAt? && s'.db == s.db
    requires SameNodes(Slots(SurvivorChild(Survivor(br, dir))), s, s')
    requires SparesBelow(p + SurvivorPath(dir, Survivor(br, dir)), s, s')
    ensures var sib := Survivor(br, dir); Holds(H, SurvivorChild(sib), p + SurvivorPath(dir, sib), s')
  {
    var sib := Survivor(br, dir);
    assert Holds(H, SurvivorChild(sib), if sib.StemAt? then (p + [dir]) + sib.path else p + [dir], s);
    hide Holds, HoldsTop, SurvivorPath, SparesBelow, SameNodes, Slots, SurvivorChild;
    SurvivorPosition(p, dir, sib);
    HoldsFrame(H, SurvivorChild(sib), p + SurvivorPath(dir, sib), s, s');
  }

  lemma {:induction false} SurvivorPosition(p: Bits, dir: bool, sib: Shape)
    ensures p + SurvivorPath(dir, sib) == if sib.StemAt? then (p + [dir]) + sib.path else p + [dir]
  {
    if sib.StemAt? {
      assert p + ([dir] + sib.path) == (p + [dir]) + sib.path;
    } else {
      assert SurvivorPath(dir, sib) == [dir];
    }
  }

  /** A node that becomes a stem above the survivor replaces itself. */
  lemma {:induction false} StemReplaces(H: StarkHash, sub: Shape, path: Bits, y: Shape, p: Bits,
          others: set<ArenaKey>, s: Store, s': Store)
    requires InArena(sub) && Placed(y) && sub.at.key !in Slots(y) && Slots(y) <= Slots(sub) && Slots(sub) !! others
    requires |p| < 256 && Holds(H, y, p + path, s') && sub.at.key in s'.nodes
    requires s'.nodes[sub.at.key].Bare() == Edge(None, |p|, path, HandleOf(H, y))
    requires s'.db == s.db && SameNodes(others, s, s') && DeadUnder(p, s, s')
    ensures Replaces(H, sub, StemAt(sub.at, path, y), p, others, s, s')
    ensures Slots(StemAt(sub.at, path, y)) == {sub.at.key} + Slots(y)
  {
  }

  /** The arena and death row after the doomed child and, if fused, the survivor are gone. */
  predicate Pruned(s: Store, d: Shape, sib: Shape, p: Bits, dir: bool, s': Store) {
    && s'.db == s.db
    && s'.nodes.Keys == s.nodes.Keys - Slots(d) - SurvivorSlot(sib)
    && (forall e :: e in s'.nodes ==> s'.nodes[e] == s.nodes[e])
    && s'.dead == s.dead + (if d.StemAt? then {NodeKey(p + [!dir])} else {}) + SurvivorDead(sib, p + [dir])
  }

  /** The record behind a handle at the given position, if there is one to be read. */
  function ChildRecord(s: Store, handle: NodeHandle, path: Bits): Option<Node> {
    if handle.InMemory? then (if handle.key in s.nodes then Some(s.nodes[handle.key]) else None)
    else if NodeKey(path) in s.dead then None
    else DbNode(s.db, path)
  }

  /** An edge and the arena and death row after it took over its child's bits, if the child is an edge. */
  function Merged(parent: Node, child: Option<Node>): Node
    requires parent.Edge?
  {
    if child.Some? && child.value.Edge? then parent.(path := parent.path + child.value.path, child := child.value.child)
    else parent
  }

  function MergedStore(s: Store, handle: NodeHandle, path: Bits): Store {
    var child := ChildRecord(s, handle, path);
    if child.Some? && child.value.Edge? then
      s.(nodes := s.nodes - (if handle.InMemory? then {handle.key} else {}), dead := s.dead + {NodeKey(path)})
    else s
  }

  /** The survivor's record is still there once the doomed child is gone. */
  lemma {:induction false} SurvivorSpared(H: StarkHash, s: Store, doomed: set<ArenaKey>, buried: set<TrieKey>,
          sib: Shape, pos: Bits, n: nat)
    requires NodeKey(pos) !in buried && (InArena(sib) ==> sib.at.key !in doomed)
    requires InArena(sib) ==> sib.at.key in s.nodes && Refers(H, s.nodes[sib.at.key], sib, n)
    requires !sib.LeafAt? && sib.at.Disk? ==>
               NodeKey(pos) !in s.dead && DbNode(s.db, pos).Some? && Refers(H, DbNode(s.db, pos).value, sib, n)
    requires sib.LeafAt? ==> NodeKey(pos) in s.dead || DbNode(s.db, pos).None?
    ensures var mid := Store(s.nodes - doomed, s.db, s.dead + buried);
            var child := ChildRecord(mid, HandleOf(H, sib), pos);
            && (InArena(sib) ==> sib.at.key in mid.nodes)
            && (if sib.LeafAt? then child.None? else child.Some? && Refers(H, child.value, sib, n))
  {
    hide NodeKey, Refers, Tries.Hash, Denote;
  }

  lemma {:induction false} BranchRecord(H: StarkHash, node: Node, br: Shape, n: nat, dir: bool)
    requires br.BranchAt? && Refers(H, node, br, n)
    ensures node.Binary? && node.height == n && node.GetChild(dir) == HandleOf(H, Survivor(br, dir))
  {
  }

  lemma {:induction false} InOwnSlots(a: Shape)
    ensures InArena(a) ==> a.at.key in Slots(a)
  {
  }

  /** With the doomed child gone, the branch and its survivor read as before. */
  lemma {:induction false} SurvivorRecord(H: StarkHash, height: nat, a: Shape, root: Option<RootHandle>, s: Store,
          nextKey: ArenaKey, k: Bits, n: nat, br: Shape, mid: Store)
    requires TreeInv(H, height, Some(a), root, s, nextKey) && |k| == height && Reached(a, k, n) && n < height
    requires br == At(a, k, n) && InArena(br) && br.BranchAt?
    requires mid == Store(s.nodes - Slots(Toward(br, k[n..])), s.db,
                          s.dead + if Toward(br, k[n..]).StemAt? then {NodeKey(k[..n + 1])} else {})
    ensures br.at.key in mid.nodes && mid.nodes[br.at.key].Binary? && mid.nodes[br.at.key].height == n
    ensures var dir := !k[n];
            var sib := Survivor(br, dir);
            var child := ChildRecord(mid, HandleOf(H, sib), k[..n] + [dir]);
            && mid.nodes[br.at.key].GetChild(dir) == HandleOf(H, sib)
            && (InArena(sib) ==> sib.at.key in mid.nodes)
            && (if sib.LeafAt? then child.None? else child.Some? && Refers(H, child.value, sib, n + 1))
  {
    hide Holds, HoldsTop, NoLeak, NodeAt, Canonical, NodeKey, At, Reached, TreeInv, Denote, Placed, Tries.Hash, Slots,
         Refers, ChildRecord, Toward, Survivor, DbNode, HandleOf;
    var dir := !k[n];
    var sib, d := Survivor(br, dir), Toward(br, k[n..]);
    assert k[n..][0] == k[n];
    BranchParts(H, height, a, root, s, nextKey, k, n, br);
    ReadNode(H, height, a, root, s, nextKey, k, n, br);
    BranchRecord(H, s.nodes[br.at.key], br, n, dir);
    SurvivorSlots(br, k[n..]);
    InOwnSlots(sib);
    SurvivorRead(H, height, a, root, s, nextKey, k, n, br, dir);
    SiblingKeys(k, n);
    SurvivorSpared(H, s, Slots(d), if d.StemAt? then {NodeKey(k[..n + 1])} else {}, sib, k[..n] + [dir], n + 1);
  }

  lemma {:induction false} MergedSurvivor(H: StarkHash, n: nat, dir: bool, sib: Shape, child: Option<Node>)
    requires if sib.LeafAt? then child.None? else child.Some? && Refers(H, child.value, sib, n + 1)
    ensures Merged(Edge(None, n, [dir], HandleOf(H, sib)), child)
              == Edge(None, n, SurvivorPath(dir, sib), HandleOf(H, SurvivorChild(sib)))
    ensures child.Some? && child.value.Edge? <==> sib.StemAt?
  {
    assert [dir] + [] == [dir];
  }

  lemma {:induction false} MergedPruned(H: StarkHash, s: Store, d: Shape, sib: Shape, p: Bits, dir: bool, mid: Store)
    requires mid == Store(s.nodes - Slots(d), s.db, s.dead + if d.StemAt? then {NodeKey(p + [!dir])} else {})
    requires var child := ChildRecord(mid, HandleOf(H, sib), p + [dir]);
             child.Some? && child.value.Edge? <==> sib.StemAt?
    ensures Pruned(s, d, sib, p, dir, MergedStore(mid, HandleOf(H, sib), p + [dir]))
  {
    hide NodeKey, Slots;
  }

  /** Merging the one-bit edge with the survivor gives the edge and the store wanted. */
  lemma {:induction false} SurvivorMerged(H: StarkHash, height: nat, a: Shape, root: Option<RootHandle>, s: Store,
          nextKey: ArenaKey, k: Bits, n: nat, br: Shape, mid: Store)
    requires TreeInv(H, height, Some(a), root, s, nextKey) && |k| == height && Reached(a, k, n) && n < height
    requires br == At(a, k, n) && InArena(br) && br.BranchAt?
    requires mid == Store(s.nodes - Slots(Toward(br, k[n..])), s.db,
                          s.dead + if Toward(br, k[n..]).StemAt? then {NodeKey(k[..n + 1])} else {})
    ensures br.at.key in mid.nodes && mid.nodes[br.at.key].Binary? && mid.nodes[br.at.key].height == n
    ensures var dir := !k[n];
            var sib := Survivor(br, dir);
            var handle, pos := mid.nodes[br.at.key].GetChild(dir), k[..n] + [dir];
            && (handle.InMemory? ==> handle.key in mid.nodes)
            && Merged(Edge(None, n, [dir], handle), ChildRecord(mid, handle, pos))
                 == Edge(None, n, SurvivorPath(dir, sib), HandleOf(H, SurvivorChild(sib)))
            && Pruned(s, Toward(br, k[n..]), sib, k[..n], dir, MergedStore(mid, handle, pos))
  {
    hide Holds, TreeInv, At, Reached, Slots, NodeKey, Pruned, Merged, MergedStore, Refers, ChildRecord,
         SurvivorPath, SurvivorChild;
    var dir := !k[n];
    var sib := Survivor(br, dir);
    SurvivorRecord(H, height, a, root, s, nextKey, k, n, br, mid);
    MergedSurvivor(H, n, dir, sib, ChildRecord(mid, HandleOf(H, sib), k[..n] + [dir]));
    assert k[..n] + [!dir] == k[..n + 1];
    MergedPruned(H, s, Toward(br, k[n..]), sib, k[..n], dir, mid);
  }

  lemma {:induction false} SiblingKeys(k: Bits, n: nat)
    requires n < |k| < 256
    ensures NodeKey(k[..n + 1]) != NodeKey(k[..n] + [!k[n]])
  {
    assert k[..n + 1] != k[..n] + [!k[n]] by { assert k[..n + 1][n] != (k[..n] + [!k[n]])[n]; }
  }

  lemma {:induction false} SurvivorSlots(br: Shape, rest: Bits)
    requires Placed(br) && InArena(br) && br.BranchAt? && rest != []
    ensures var d, sib := Toward(br, rest), Survivor(br, !rest[0]);
            && Placed(SurvivorChild(sib)) && Slots(d) !! Slots(sib) && SurvivorSlot(sib) !! Slots(SurvivorChild(sib))
            && Slots(br) == {br.at.key} + Slots(d) + Slots(sib)
            && Slots(sib) == SurvivorSlot(sib) + Slots(SurvivorChild(sib))
            && br.at.key !in Slots(d) + Slots(sib)
  {
  }

  /** A node that becomes a stem above the survivor of the branch below it, or of itself: the arena side. */
  lemma {:induction false} CollapseStore(H: StarkHash, br: Shape, p: Bits, rest: Bits, s: Store, pruned: Store,
          sub: Shape, q: Bits, lead: Bits, s': Store)
    requires Placed(br) && Holds(H, br, p, s) && InArena(br) && br.BranchAt? && rest != [] && |p| < 255
    requires Survivor(br, !rest[0]).StemAt? ==> Survivor(br, !rest[0]).path != []
    requires Pruned(s, Toward(br, rest), Survivor(br, !rest[0]), p, !rest[0], pruned)
    requires InArena(sub) && Slots(sub) == Slots(br) + {sub.at.key} && Slots(sub) <= s.nodes.Keys && q + lead == p
    requires sub.at == br.at || sub.at.key !in Slots(br)
    requires s'.db == s.db && s'.dead == pruned.dead + if sub.at == br.at then {} else {NodeKey(p)}
    requires s'.nodes.Keys == pruned.nodes.Keys - {br.at.key} + {sub.at.key}
    requires forall e :: e in s'.nodes && e != sub.at.key ==> s'.nodes[e] == s.nodes[e]
    requires var sib := Survivor(br, !rest[0]);
             s'.nodes[sub.at.key].Bare() ==
               Edge(None, |q|, lead + SurvivorPath(!rest[0], sib), HandleOf(H, SurvivorChild(sib)))
    ensures var sib := Survivor(br, !rest[0]);
            var x := StemAt(sub.at, lead + SurvivorPath(!rest[0], sib), SurvivorChild(sib));
            && Replaces(H, sub, x, q, s.nodes.Keys - Slots(sub), s, s')
            && s'.nodes.Keys == s.nodes.Keys - Slots(sub) + Slots(x) && s'.nodes.Keys <= s.nodes.Keys
            && s.dead <= s'.dead
  {
    hide Denote, Holds, Placed, Slots, NodeKey, SurvivorPath, SparesBelow, DeadUnder, SurvivorDead;
    var dir := !rest[0];
    var sib := Survivor(br, dir);
    SurvivorSlots(br, rest);
    CollapseDead(br, p, rest, s, pruned, q, lead, s');
    SurvivorHolds(H, br, p, dir, s, s');
    StemReplaces(H, sub, lead + SurvivorPath(dir, sib), SurvivorChild(sib), q, s.nodes.Keys - Slots(sub), s, s');
  }

  /** Everything a collapse adds to the death row is below its new stem but not below the survivor. */
  lemma {:induction false} CollapseDead(br: Shape, p: Bits, rest: Bits, s: Store, pruned: Store, q: Bits, lead: Bits,
          s': Store)
    requires br.BranchAt? && rest != [] && |p| < 255 && q + lead == p
    requires Survivor(br, !rest[0]).StemAt? ==> Survivor(br, !rest[0]).path != []
    requires Pruned(s, Toward(br, rest), Survivor(br, !rest[0]), p, !rest[0], pruned)
    requires s'.dead == pruned.dead || s'.dead == pruned.dead + {NodeKey(p)}
    ensures var path := SurvivorPath(!rest[0], Survivor(br, !rest[0]));
            SparesBelow(p + path, s, s') && q + (lead + path) == p + path
    ensures DeadUnder(q, s, s') && s.dead <= s'.dead
  {
    hide NodeKey, SurvivorPath, SparesBelow, DeadUnder, SurvivorDead;
    DeleteSpares(p, !rest[0], Survivor(br, !rest[0]), s, s');
    DeadUnderPrefix(q, lead, s, s');
    var path := SurvivorPath(!rest[0], Survivor(br, !rest[0]));
    assert q + (lead + path) == (q + lead) + path;
  }

  lemma {:induction false} DeadUnderPrefix(q: Bits, lead: Bits, s: Store, s': Store)
    requires DeadUnder(q + lead, s, s')
    ensures DeadUnder(q, s, s')
  {
  }

  /** The trie side: deletion, and where every lost position went. */
  lemma {:induction false} CollapseTrie(br: Shape, p: Bits, rest: Bits, at: Place, dead: set<TrieKey>)
    requires br.BranchAt? && rest != [] && Doomed(Toward(br, rest), rest[1..])
    requires Toward(br, rest).StemAt? ==> NodeKey(p + [rest[0]]) in dead
    requires SurvivorDead(Survivor(br, !rest[0]), p + [!rest[0]]) <= dead
    ensures var sib := Survivor(br, !rest[0]);
            var x := StemAt(at, SurvivorPath(!rest[0], sib), SurvivorChild(sib));
            TrieDelete(Denote(br), rest) == Some(Denote(x)) && Buries(Denote(br), Denote(x), p, dead)
  {
    hide TrieDelete, Buries, NodeKey;
    DoomedDeletes(Toward(br, rest), rest[1..]);
    BranchDeletes(br, rest);
    BranchBuries(br, p, rest, dead);
  }

  /** The same below a stem, which takes the bits over. */
  lemma {:induction false} CollapseTrieBelow(par: Shape, q: Bits, k: Bits, at: Place, dead: set<TrieKey>)
    requires par.StemAt? && par.path <= k && par.child.BranchAt? && k[|par.path|..] != []
    requires var br, p, rest := par.child, q + par.path, k[|par.path|..];
             && Doomed(Toward(br, rest), rest[1..])
             && (Toward(br, rest).StemAt? ==> NodeKey(p + [rest[0]]) in dead)
             && SurvivorDead(Survivor(br, !rest[0]), p + [!rest[0]]) <= dead && NodeKey(p) in dead
    ensures var rest := k[|par.path|..];
            var sib := Survivor(par.child, !rest[0]);
            var x := StemAt(at, par.path + SurvivorPath(!rest[0], sib), SurvivorChild(sib));
            TrieDelete(Denote(par), k) == Some(Denote(x)) && Buries(Denote(par), Denote(x), q, dead)
  {
    hide Buries, NodeKey, SurvivorPath, SurvivorChild;
    var rest := k[|par.path|..];
    var sib := Survivor(par.child, !rest[0]);
    CollapseTrie(par.child, q + par.path, rest, at, dead);
    StemBuries(par.path, Denote(par.child), SurvivorPath(!rest[0], sib), Denote(SurvivorChild(sib)), q, dead);
  }

  /** A pruned branch turned into a stem in its own slot: the arena, and the trie without the key. */
  lemma {:induction false} CollapseInv(H: StarkHash, height: nat, a: Shape, root: Option<RootHandle>, s: Store,
          nextKey: ArenaKey, k: Bits, n: nat, br: Shape, pruned: Store, s': Store)
    requires TreeInv(H, height, Some(a), root, s, nextKey) && |k| == height && Reached(a, k, n) && n < height
    requires br == At(a, k, n) && InArena(br) && br.BranchAt? && Doomed(Toward(br, k[n..]), k[n..][1..])
             && !BelowStem(a, k, n)
    requires var sib := Survivor(br, !k[n..][0]);
             && Pruned(s, Toward(br, k[n..]), sib, k[..n], !k[n..][0], pruned)
             && s' == pruned.(nodes := pruned.nodes[br.at.key :=
                                Edge(None, n, SurvivorPath(!k[n..][0], sib), HandleOf(H, SurvivorChild(sib)))])
    ensures var sib := Survivor(br, !k[n..][0]);
            var b := Graft(a, k, n, StemAt(br.at, SurvivorPath(!k[n..][0], sib), SurvivorChild(sib)));
            TreeInv(H, height, Some(b), root, s', nextKey) && TrieDelete(Denote(a), k) == Some(Denote(b))
  {
    hide Holds, Placed, Slots, NodeKey, TrieDelete, Buries, Canonical, Denote, NoLeak, Graft, At, Reached,
         SurvivorPath, BelowStem;
    var p, rest := k[..n], k[n..];
    BranchParts(H, height, a, root, s, nextKey, k, n, br);
    SurvivorSlots(br, rest);
    assert [] + SurvivorPath(!rest[0], Survivor(br, !rest[0])) == SurvivorPath(!rest[0], Survivor(br, !rest[0]));
    assert p + [] == p;
    CollapseStore(H, br, p, rest, s, pruned, br, p, [], s');
    CollapseTrie(br, p, rest, br.at, s'.dead);
    DeleteInv(H, height, a, root, s, nextKey, k, n,
              StemAt(br.at, SurvivorPath(!rest[0], Survivor(br, !rest[0])), SurvivorChild(Survivor(br, !rest[0]))), s');
  }

  lemma {:induction false} BranchParts(H: StarkHash, height: nat, a: Shape, root: Option<RootHandle>, s: Store,
          nextKey: ArenaKey, k: Bits, n: nat, sub: Shape)
    requires TreeInv(H, height, Some(a), root, s, nextKey) && Reached(a, k, n) && n <= |k| && sub == At(a, k, n)
    ensures Placed(sub) && Holds(H, sub, k[..n], s) && Slots(sub) <= s.nodes.Keys && height <= 251
    ensures InArena(sub) ==> sub.at.key in Slots(sub) && sub.at.key in s.nodes
    ensures sub.BranchAt? ==> forall dir :: Survivor(sub, dir).StemAt? ==> Survivor(sub, dir).path != []
  {
    StandsInTree(H, height, a, root, s, nextKey, k, n);
    AtPlaced(a, k, n);
    AtCanonical(a, height, k, n);
  }

  /** The same when a stem leads to the branch: the stem takes everything over, and the branch goes as well. */
  lemma {:induction false} CollapseInvBelow(H: StarkHash, height: nat, a: Shape, root: Option<RootHandle>, s: Store,
          nextKey: ArenaKey, k: Bits, n: nat, par: Shape, m: nat, pruned: Store, s': Store)
    requires TreeInv(H, height, Some(a), root, s, nextKey) && |k| == height
    requires Reached(a, k, m) && m <= height && par == At(a, k, m) && InArena(par) && par.StemAt? && par.path <= k[m..]
    requires par.child.BranchAt? && InArena(par.child) && n == m + |par.path| && n < height
    requires Doomed(Toward(par.child, k[n..]), k[n..][1..])
    requires var br, sib := par.child, Survivor(par.child, !k[n..][0]);
             && Pruned(s, Toward(br, k[n..]), sib, k[..n], !k[n..][0], pruned)
             && s'.db == s.db && s'.dead == pruned.dead + {NodeKey(k[..n])}
             && s'.nodes.Keys == pruned.nodes.Keys - {br.at.key} && par.at.key in s'.nodes
             && (forall e :: e in s'.nodes && e != par.at.key ==> s'.nodes[e] == s.nodes[e])
             && s'.nodes[par.at.key].Bare() ==
                  Edge(None, m, par.path + SurvivorPath(!k[n..][0], sib), HandleOf(H, SurvivorChild(sib)))
    ensures var sib := Survivor(par.child, !k[n..][0]);
            var b := Graft(a, k, m, StemAt(par.at, par.path + SurvivorPath(!k[n..][0], sib), SurvivorChild(sib)));
            TreeInv(H, height, Some(b), root, s', nextKey) && TrieDelete(Denote(a), k) == Some(Denote(b))
  {
    hide Holds, Placed, Slots, NodeKey, TrieDelete, Buries, Canonical, Denote, NoLeak, Graft, At, Reached,
         SurvivorPath, BelowStem;
    var br := par.child;
    var p, q, rest := k[..n], k[..m], k[n..];
    assert k[m..][..|par.path|] == par.path && q + par.path == p && k[m..][|par.path|..] == rest;
    BranchParts(H, height, a, root, s, nextKey, k, m, par);
    StemParts(H, par, q, s);
    StemNotBelow(H, height, a, root, s, nextKey, k, m);
    StepOn(a, 0, k, m);
    BranchParts(H, height, a, root, s, nextKey, k, n, br);
    SurvivorSlots(br, rest);
    CollapseStore(H, br, p, rest, s, pruned, par, q, par.path, s');
    CollapseTrieBelow(par, q, k[m..], par.at, s'.dead);
    DeleteInv(H, height, a, root, s, nextKey, k, m,
              StemAt(par.at, par.path + SurvivorPath(!rest[0], Survivor(br, !rest[0])),
                SurvivorChild(Survivor(br, !rest[0]))), s');
  }

  lemma {:induction false} StemParts(H: StarkHash, par: Shape, q: Bits, s: Store)
    requires par.StemAt? && InArena(par) && Placed(par) && Holds(H, par, q, s)
    ensures Placed(par.child) && Holds(H, par.child, q + par.path, s)
    ensures Slots(par) == Slots(par.child) + {par.at.key} && par.at.key !in Slots(par.child)
  {
  }

  lemma {:induction false} StemNotBelow(H: StarkHash, height: nat, a: Shape, root: Option<RootHandle>, s: Store,
          nextKey: ArenaKey, k: Bits, n: nat)
    requires TreeInv(H, height, Some(a), root, s, nextKey) && Reached(a, k, n) && At(a, k, n).StemAt?
    ensures !BelowStem(a, k, n) && At(a, k, n).path != []
  {
    StemNotBelowStem(a, height, k, n);
    AtCanonical(a, height, k, n);
  }

  /** Where a seek for a present key ends: a stem down to the leaf, or the branch right above it. */
  lemma {:induction false} DeletePoint(H: StarkHash, height: nat, a: Shape, root: Option<RootHandle>, s: Store,
          nextKey: ArenaKey, k: Bits, n: nat, sub: Shape, node: Node)
    requires TreeInv(H, height, Some(a), root, s, nextKey) && |k| == height && IsEnd(a, k, n) && sub == At(a, k, n)
    requires Lookup(Denote(a), k).Some? && sub.at.key in s.nodes && node == s.nodes[sub.at.key]
    ensures node.Edge? <==> sub.StemAt?
    ensures sub.StemAt? ==>
              Doomed(sub, k[n..]) && Slots(sub) == {sub.at.key} && |sub.path| == height - n && node.path == sub.path
    ensures sub.BranchAt? ==> n + 1 == height && Doomed(Toward(sub, k[n..]), k[n..][1..])
    ensures sub.BranchAt? ==> Toward(sub, k[n..]).LeafAt? && Slots(Toward(sub, k[n..])) == {}
  {
    ReadNode(H, height, a, root, s, nextKey, k, n, sub);
    EndLookup(a, k, n);
    AtCanonical(a, height, k, n);
    var c := Toward(sub, k[n..]);
    assert c.LeafAt? && Canonical(Denote(c), height - n - StepLen(sub));
    if sub.StemAt? { assert sub.path == k[n..]; }
  }

  /** Above a stem there is a branch, one bit up. */
  lemma {:induction false} BranchPoint(H: StarkHash, height: nat, a: Shape, root: Option<RootHandle>, s: Store,
          nextKey: ArenaKey, k: Bits, n: nat, sub: Shape)
    requires TreeInv(H, height, Some(a), root, s, nextKey) && |k| == height && Reached(a, k, n) && 0 < n <= height
    requires sub == At(a, k, n) && sub.StemAt?
    ensures Reached(a, k, n - 1) && At(a, k, n - 1).BranchAt? && InArena(At(a, k, n - 1))
    ensures Toward(At(a, k, n - 1), k[n - 1..]) == sub && k[n - 1..][1..] == k[n..]
    ensures TraceTo(a, 0, k, n) == TraceTo(a, 0, k, n - 1) + [(At(a, k, n - 1).at.key, n - 1)]
  {
    hide TreeInv, Holds, Slots, Placed, NoLeak, Denote, Canonical, Reached, At, BelowStem, TraceTo;
    InvCanonical(H, height, a, root, s, nextKey);
    TraceLast(a, 0, k, n);
    StemNotBelowStem(a, height, k, n);
    var trace := TraceTo(a, 0, k, n);
    var (id, m) := trace[|trace| - 1];
    assert m == n - 1 && !At(a, k, m).StemAt?;
    assert id == At(a, k, n - 1).at.key;
    assert trace == trace[..|trace| - 1] + [trace[|trace| - 1]];
  }

  /** The parent of a branch, if it has one, and what its record says. */
  lemma {:induction false} ParentPoint(H: StarkHash, height: nat, a: Shape, root: Option<RootHandle>, s: Store,
          nextKey: ArenaKey, k: Bits, n: nat)
    requires TreeInv(H, height, Some(a), root, s, nextKey) && |k| == height && Reached(a, k, n) && n < height
    ensures TraceTo(a, 0, k, n) == [] ==> !BelowStem(a, k, n)
    ensures var trace := TraceTo(a, 0, k, n);
            trace != [] ==>
              var (id, m) := trace[|trace| - 1];
              && m < n && Reached(a, k, m)
              && var par := At(a, k, m);
                 && InArena(par) && par.at.key == id && id in s.nodes && id !in Slots(At(a, k, n))
                 && (s.nodes[id].Edge? <==> par.StemAt?) && (BelowStem(a, k, n) <==> par.StemAt?)
                 && (par.StemAt? ==> par.path <= k[m..] && par.child == At(a, k, n) && n == m + |par.path|)
                 && (par.StemAt? ==> s.nodes[id].Bare() == Edge(None, m, par.path, HandleOf(H, par.child)))
  {
    if n > 0 {
      TraceLast(a, 0, k, n);
      var trace := TraceTo(a, 0, k, n);
      var m := trace[|trace| - 1].1;
      ReadNode(H, height, a, root, s, nextKey, k, m, At(a, k, m));
      AtPlaced(a, k, m);
      TowardSlots(At(a, k, m), k[m..]);
    }
  }

  /** Nodes outside a branch are none of its pruning's business. */
  lemma {:induction false} OutsidePruned(br: Shape, rest: Bits, s: Store, p: Bits, pruned: Store)
    requires br.BranchAt? && InArena(br) && rest != [] && Placed(br) && Slots(br) <= s.nodes.Keys
    requires Pruned(s, Toward(br, rest), Survivor(br, !rest[0]), p, !rest[0], pruned)
    ensures forall id :: id in s.nodes && id !in Slots(br) ==> id in pruned.nodes && pruned.nodes[id] == s.nodes[id]
    ensures pruned.db == s.db && br.at.key in pruned.nodes
    ensures forall e :: e in pruned.nodes ==> pruned.nodes[e] == s.nodes[e]
    ensures br.at.key in Slots(br)
  {
    SurvivorSlots(br, rest);
  }

  /** The parent of the node a walk ends at, by its trace entry. */
  function ParentId(trace: seq<(ArenaKey, nat)>): Option<ArenaKey> {
    if trace == [] then None else Some(trace[|trace| - 1].0)
  }

  /** After the pruning the branch's record becomes the given edge, or its parent's does if that is an edge. */
  function Collapsed(pruned: Store, branchId: ArenaKey, position: TrieKey, parent: Option<ArenaKey>,
          newEdge: Node): Store
    requires newEdge.Edge?
  {
    if parent.Some? && parent.value in pruned.nodes && pruned.nodes[parent.value].Edge? then
      var record := pruned.nodes[parent.value];
      var merged := record.(path := record.path + newEdge.path, child := newEdge.child);
      Store(pruned.nodes[parent.value := merged] - {branchId}, pruned.db, pruned.dead + {position})
    else pruned.(nodes := pruned.nodes[branchId := newEdge])
  }

  /** The shape after a branch gave way to its survivor. */
  ghost function CollapsedShape(a: Shape, k: Bits, n: nat): Shape
    requires Reached(a, k, n) && n < |k| && At(a, k, n).BranchAt?
  {
    var br, trace := At(a, k, n), TraceTo(a, 0, k, n);
    var sib := Survivor(br, !k[n]);
    if BelowStem(a, k, n) then
      TraceLast(a, 0, k, n);
      var m := trace[|trace| - 1].1;
      var par := At(a, k, m);
      Graft(a, k, m, StemAt(par.at, par.path + SurvivorPath(!k[n], sib), SurvivorChild(sib)))
    else Graft(a, k, n, StemAt(br.at, SurvivorPath(!k[n], sib), SurvivorChild(sib)))
  }

  /** What the collapsed store looks like below a stem. */
  lemma {:induction false} CollapsedBelow(pruned: Store, branchId: ArenaKey, position: TrieKey, id: ArenaKey,
          path: Bits, child: NodeHandle, n: nat, m: nat, lead: Bits)
    requires id in pruned.nodes && id != branchId && pruned.nodes[id].Edge?
    requires pruned.nodes[id].path == lead && pruned.nodes[id].height == m
    ensures var s' := Collapsed(pruned, branchId, position, Some(id), Edge(None, n, path, child));
            && s'.db == pruned.db && s'.dead == pruned.dead + {position}
            && s'.nodes.Keys == pruned.nodes.Keys - {branchId} && id in s'.nodes
            && (forall e :: e in s'.nodes && e != id ==> s'.nodes[e] == pruned.nodes[e])
            && s'.nodes[id].Bare() == Edge(None, m, lead + path, child)
  {
  }

  /** Either way the tree stands for the trie without the key. */
  lemma {:induction false} CollapsedInv(H: StarkHash, height: nat, a: Shape, root: Option<RootHandle>, s: Store,
          nextKey: ArenaKey, k: Bits, n: nat, br: Shape, pruned: Store, newEdge: Node)
    requires TreeInv(H, height, Some(a), root, s, nextKey) && |k| == height && Reached(a, k, n) && n < height
    requires br == At(a, k, n) && InArena(br) && br.BranchAt? && Doomed(Toward(br, k[n..]), k[n..][1..])
    requires Pruned(s, Toward(br, k[n..]), Survivor(br, !k[n]), k[..n], !k[n], pruned)
    requires newEdge == Edge(None, n, SurvivorPath(!k[n], Survivor(br, !k[n])),
               HandleOf(H, SurvivorChild(Survivor(br, !k[n]))))
    ensures var parent := ParentId(TraceTo(a, 0, k, n));
            && (parent.Some? ==> parent.value in pruned.nodes)
            && TreeInv(H, height, Some(CollapsedShape(a, k, n)), root,
                       Collapsed(pruned, br.at.key, NodeKey(k[..n]), parent, newEdge), nextKey)
    ensures TrieDelete(Denote(a), k) == Some(Denote(CollapsedShape(a, k, n)))
  {
    hide Holds, Placed, NodeKey, TrieDelete, Canonical, Denote, Graft, At, Reached, SurvivorPath, BelowStem,
         TreeInv, Pruned, HandleOf, TraceTo, Doomed, Slots, Collapsed;
    var trace := TraceTo(a, 0, k, n);
    assert k[n..][0] == k[n];
    BranchParts(H, height, a, root, s, nextKey, k, n, br);
    OutsidePruned(br, k[n..], s, k[..n], pruned);
    ParentPoint(H, height, a, root, s, nextKey, k, n);
    var s' := Collapsed(pruned, br.at.key, NodeKey(k[..n]), ParentId(trace), newEdge);
    if BelowStem(a, k, n) {
      TraceLast(a, 0, k, n);
      var (id, m) := trace[|trace| - 1];
      CollapsedBelow(pruned, br.at.key, NodeKey(k[..n]), id, newEdge.path, newEdge.child, n, m, At(a, k, m).path);
      CollapseInvBelow(H, height, a, root, s, nextKey, k, n, At(a, k, m), m, pruned, s');
    } else {
      CollapsedAlone(pruned, br.at.key, NodeKey(k[..n]), ParentId(trace), newEdge);
      CollapseInv(H, height, a, root, s, nextKey, k, n, br, pruned, s');
    }
  }

  lemma {:induction false} CollapsedAlone(pruned: Store, branchId: ArenaKey, position: TrieKey,
          parent: Option<ArenaKey>, newEdge: Node)
    requires newEdge.Edge? && (parent.Some? && parent.value in pruned.nodes ==> pruned.nodes[parent.value].Binary?)
    ensures Collapsed(pruned, branchId, position, parent, newEdge) ==
              pruned.(nodes := pruned.nodes[branchId := newEdge])
  {
  }

  /** A seek for a present key that ends at the root: the root is all there is. */
  lemma {:induction false} LastLeaf(H: StarkHash, height: nat, a: Shape, root: Option<RootHandle>, s: Store,
          nextKey: ArenaKey, k: Bits)
    requires TreeInv(H, height, Some(a), root, s, nextKey) && Reached(a, k, 0)
    requires InArena(At(a, k, 0)) && Slots(At(a, k, 0)) == {At(a, k, 0).at.key}
    ensures At(a, k, 0) == a && k[0..] == k && k[..0] == []
    ensures root == Some(RootHandle.Loaded(a.at.key)) && s.nodes.Keys == {a.at.key}
  {
  }

  /** The last leaf went: nothing is left. */
  lemma {:induction false} EmptiedInv(H: StarkHash, height: nat, a: Shape, root: Option<RootHandle>, s: Store,
          nextKey: ArenaKey, k: Bits, s': Store)
    requires TreeInv(H, height, Some(a), root, s, nextKey) && Doomed(a, k)
    requires s'.nodes == map[] && s'.db == s.db && s'.dead == s.dead + {NodeKey([])}
    ensures TreeInv(H, height, None, Some(RootHandle.Empty), s', nextKey)
    ensures TrieDelete(Denote(a), k).None?
  {
    DoomedDeletes(a, k);
  }

  // ----- cached hashes -----

  lemma {:induction false} PassedFirst(t: Trie, k: Bits)
    requires Continues(t, k)
    ensures PassedBits(t, k) == NextLen(t) + PassedBits(Next(t, k), k[NextLen(t)..])
  {
  }

  lemma {:induction false} LastBranchFirst(t: Trie, k: Bits)
    requires Continues(t, k) && TrieDelete(Next(t, k), k[NextLen(t)..]).Some?
    ensures LastBranch(t, k) == NextLen(t) + LastBranch(Next(t, k), k[NextLen(t)..]) && TrieDelete(t, k).Some?
  {
  }

  /** From a node passed on, the key passes what it passes from there. */
  lemma {:induction false} PassedWalk(a: Shape, k: Bits, n: nat)
    requires Reached(a, k, n) && n <= |k|
    ensures PassedBits(Denote(a), k) == n + PassedBits(Denote(At(a, k, n)), k[n..])
    decreases a
  {
    hide Reached, At, Denote, PassedBits, Continues, Next, NextLen;
    if n == 0 {
      assert k[0..] == k;
      NoWalk(a, 0, k, a);
    } else {
      Unroll(a, 0, k, n, a);
      var e := StepLen(a);
      assert k[e..][n - e..] == k[n..];
      PassShape(a, k);
      PassedFirst(Denote(a), k);
      PassedWalk(Toward(a, k), k[e..], n - e);
    }
  }

  /** A present key passes nodes all its way, an absent one down to the stem it leaves. */
  lemma {:induction false} PassedToEnd(a: Shape, k: Bits, n: nat)
    requires Canonical(Denote(a), |k|) && IsEnd(a, k, n)
    ensures PassedBits(Denote(a), k) == if Follows(At(a, k, n), k[n..]) then |k| else n
    ensures Follows(At(a, k, n), k[n..]) ==> |k| == n + StepLen(At(a, k, n)) && StepLen(At(a, k, n)) > 0
  {
    var sub := At(a, k, n);
    PassedWalk(a, k, n);
    AtCanonical(a, |k|, k, n);
    if Follows(sub, k[n..]) { PassShape(sub, k[n..]); }
  }

  /** The branch above a doomed child is the last one on the way. */
  lemma {:induction false} LastBranchWalk(a: Shape, k: Bits, n: nat)
    requires Reached(a, k, n) && n < |k| && At(a, k, n).BranchAt?
    requires TrieDelete(Denote(Toward(At(a, k, n), k[n..])), k[n..][1..]).None?
    ensures LastBranch(Denote(a), k) == n && TrieDelete(Denote(a), k).Some?
    decreases a
  {
    hide Reached, At, Next;
    if n == 0 {
      assert k[0..] == k;
      NoWalk(a, 0, k, a);
      PassShape(a, k);
    } else {
      hide Denote, LastBranch, Continues, NextLen, TrieDelete;
      Unroll(a, 0, k, n, a);
      var e := StepLen(a);
      assert k[e..][n - e..] == k[n..];
      PassShape(a, k);
      LastBranchWalk(Toward(a, k), k[e..], n - e);
      LastBranchFirst(Denote(a), k);
    }
  }

  lemma {:induction false} NoBranchLeft(t: Trie, k: Bits)
    requires TrieDelete(t, k).None?
    ensures LastBranch(t, k) == 0
  {
  }

  /** An overwritten leaf: all nodes on the key's way keep their hashes. */
  lemma {:induction false} LeafHashes(H: StarkHash, height: nat, a: Shape, root: Option<RootHandle>, s: Store,
          nextKey: ArenaKey, k: Bits, n: nat, sub: Shape, v: Felt, s': Store)
    requires TreeInv(H, height, Some(a), root, s, nextKey) && |k| == height && v != 0 && Coherent(H, a, s.nodes)
    requires IsEnd(a, k, n) && sub == At(a, k, n) && Follows(sub, k[n..])
    requires sub.at.key in s.nodes && (s.nodes[sub.at.key].Binary? ==> k[n..] != [])
    requires s' == s.(nodes := s.nodes[sub.at.key := PointTo(s.nodes[sub.at.key], k[n..], NodeHandle.Hash(v))])
    ensures var b := Graft(a, k, n, Redirect(sub, k[n..], LeafAt(v)));
            && PassedBits(Denote(a), k) == |k|
            && HashesStay(H, a, b, k, |k|, s.nodes, s'.nodes)
            && TopHash(H, b, s'.nodes) == TopHash(H, a, s.nodes)
  {
    hide Holds, HoldsTop, NoLeak, Graft, At, Reached, Denote, Canonical, HashesStay, Tries.Hash, PassedBits, TopHash;
    var x := Redirect(sub, k[n..], LeafAt(v));
    StandsInTree(H, height, a, root, s, nextKey, k, n);
    AtPlaced(a, k, n);
    SlotsInArena(sub, s);
    PassedToEnd(a, k, n);
    if sub.BranchAt? { CoherentFrame(H, if k[n..][0] then sub.left else sub.right, s.nodes, s'.nodes); }
    EditHashed(H, a, k, n, sub, x, |k|, s.nodes, s'.nodes);
    EditKeepsTop(H, a, k, n, sub, x, s.nodes, s'.nodes);
  }

  lemma {:induction false} MkStemCoherent(H: StarkHash, key: ArenaKey, path: Bits, c: Shape, nodes: NodeMap)
    requires Coherent(H, c, nodes) && (path != [] ==> key in nodes && nodes[key].hash.None?)
    ensures Coherent(H, MkStemAt(key, path, c), nodes)
  {
  }

  lemma {:induction false} ForkCoherent(H: StarkHash, at: ArenaKey, newGoesRight: bool, kept: Shape, added: Shape,
          nodes: NodeMap)
    requires Coherent(H, kept, nodes) && Coherent(H, added, nodes) && at in nodes && nodes[at].hash.None?
    ensures Coherent(H, Fork(at, newGoesRight, kept, added), nodes)
  {
  }

  /** The records of a split have no hashes. */
  lemma {:induction false} SplitCoherent(H: StarkHash, own: ArenaKey, lead: Bits, newGoesRight: bool, oldPath: Bits,
          c: Shape, newPath: Bits, v: Felt, f: Fresh, d: nat, nodes: NodeMap)
    requires SplitRecorded(H, own, lead, newGoesRight, oldPath, c, newPath, v, f, d, nodes) && Coherent(H, c, nodes)
    ensures var x := SplitShape(own, lead, newGoesRight, oldPath, c, newPath, v, f);
            Coherent(H, x, nodes) && BelowCoherent(H, x, nodes)
    ensures own in nodes && nodes[own].hash.None?
  {
    var added := MkStemAt(f.newEdge, newPath, LeafAt(v));
    var kept := MkStemAt(f.oldEdge, oldPath, c);
    var at := if lead == [] then own else f.branch;
    MkStemCoherent(H, f.oldEdge, oldPath, c, nodes);
    MkStemCoherent(H, f.newEdge, newPath, LeafAt(v), nodes);
    ForkCoherent(H, at, newGoesRight, kept, added, nodes);
    MkStemCoherent(H, own, lead, Fork(at, newGoesRight, kept, added), nodes);
  }

  /** A split: the nodes above the split stem keep their hashes, and what replaces it has none. */
  lemma {:induction false} SplitHashes(H: StarkHash, height: nat, a: Shape, root: Option<RootHandle>, s: Store,
          nextKey: ArenaKey, k: Bits, n: nat, sub: Shape, v: Felt, m: nat, f: Fresh, nodes': NodeMap)
    requires TreeInv(H, height, Some(a), root, s, nextKey) && |k| == height && Coherent(H, a, s.nodes)
    requires IsEnd(a, k, n) && sub == At(a, k, n) && sub.StemAt?
    requires m < |sub.path| && m < |k[n..]| && m == CommonLen(sub.path, k[n..])
    requires SplitRecorded(H, sub.at.key, sub.path[..m], k[n..][m], sub.path[m + 1..], sub.child, k[n..][m + 1..], v,
               f, n, nodes')
    requires forall e :: e in s.nodes && e != sub.at.key ==> e in nodes' && nodes'[e] == s.nodes[e]
    ensures var x := SplitShape(sub.at.key, sub.path[..m], k[n..][m], sub.path[m + 1..], sub.child, k[n..][m + 1..],
              v, f);
            && PassedBits(Denote(a), k) == n
            && HashesStay(H, a, Graft(a, k, n, x), k, n, s.nodes, nodes')
            && (n > 0 ==> TopHash(H, Graft(a, k, n, x), nodes') == TopHash(H, a, s.nodes))
  {
    hide Holds, HoldsTop, NoLeak, Graft, At, Reached, Denote, Canonical, HashesStay, Tries.Hash, PassedBits, TopHash,
         SplitRecorded, CommonLen, SplitTakes, StemSlot;
    StandsInTree(H, height, a, root, s, nextKey, k, n);
    AtPlaced(a, k, n);
    SlotsInArena(sub, s);
    PassedToEnd(a, k, n);
    assert !Follows(sub, k[n..]);
    CoherentFrame(H, sub.child, s.nodes, nodes');
    SplitCoherent(H, sub.at.key, sub.path[..m], k[n..][m], sub.path[m + 1..], sub.child, k[n..][m + 1..], v, f, n,
      nodes');
    var x := SplitShape(sub.at.key, sub.path[..m], k[n..][m], sub.path[m + 1..], sub.child, k[n..][m + 1..], v, f);
    SplitAt(sub.at.key, sub.path[..m], k[n..][m], sub.path[m + 1..], sub.child, k[n..][m + 1..], v, f);
    hide SplitShape;
    EditHashed(H, a, k, n, sub, x, n, s.nodes, nodes');
    if n > 0 { EditKeepsTop(H, a, k, n, sub, x, s.nodes, nodes'); }
  }

  lemma {:induction false} SplitAt(own: ArenaKey, lead: Bits, newGoesRight: bool, oldPath: Bits, c: Shape,
          newPath: Bits, v: Felt, f: Fresh)
    ensures var x := SplitShape(own, lead, newGoesRight, oldPath, c, newPath, v, f); InArena(x) && x.at == Slot(own)
  {
  }

  /** The survivor's subtree comes through a collapse with its hashes. */
  lemma {:induction false} SurvivorCoherent(H: StarkHash, br: Shape, rest: Bits, s: Store, p: Bits, pruned: Store,
          top: ArenaKey, nodes': NodeMap)
    requires br.BranchAt? && InArena(br) && rest != [] && Placed(br) && Slots(br) <= s.nodes.Keys
             && Coherent(H, br, s.nodes)
    requires Pruned(s, Toward(br, rest), Survivor(br, !rest[0]), p, !rest[0], pruned)
    requires top == br.at.key || top !in Slots(br)
    requires nodes'.Keys == pruned.nodes.Keys - {br.at.key} + {top}
    requires forall e :: e in nodes' && e != top ==> nodes'[e] == s.nodes[e]
    ensures Coherent(H, SurvivorChild(Survivor(br, !rest[0])), nodes')
  {
    hide Denote, Tries.Hash;
    SurvivorSlots(br, rest);
    CoherentFrame(H, SurvivorChild(Survivor(br, !rest[0])), s.nodes, nodes');
  }

  /** A collapse: the nodes above the collapsed branch keep their hashes, also the stem that takes its bits over. */
  lemma {:induction false} CollapsedHashes(H: StarkHash, height: nat, a: Shape, root: Option<RootHandle>, s: Store,
          nextKey: ArenaKey, k: Bits, n: nat, br: Shape, pruned: Store, newEdge: Node)
    requires TreeInv(H, height, Some(a), root, s, nextKey) && |k| == height && Reached(a, k, n) && n < height
    requires br == At(a, k, n) && InArena(br) && br.BranchAt? && Doomed(Toward(br, k[n..]), k[n..][1..])
    requires Pruned(s, Toward(br, k[n..]), Survivor(br, !k[n]), k[..n], !k[n], pruned)
    requires newEdge.Edge? && newEdge.height == n && newEdge.hash.None? && Coherent(H, a, s.nodes)
    ensures LastBranch(Denote(a), k) == n
    ensures var b := CollapsedShape(a, k, n);
            var nodes' := Collapsed(pruned, br.at.key, NodeKey(k[..n]), ParentId(TraceTo(a, 0, k, n)), newEdge).nodes;
            && HashesStay(H, a, b, k, n, s.nodes, nodes')
            && (n > 0 ==> TopHash(H, b, nodes') == TopHash(H, a, s.nodes))
  {
    hide Holds, NodeKey, TrieDelete, Canonical, Denote, Graft, At, Reached, SurvivorPath, BelowStem, Pruned, NoLeak,
         HandleOf, TraceTo, Doomed, Slots, Collapsed, HashesStay, TopHash, SurvivorChild, Placed, Coherent, LastBranch;
    var trace, rest := TraceTo(a, 0, k, n), k[n..];
    assert rest[0] == k[n];
    BranchParts(H, height, a, root, s, nextKey, k, n, br);
    OutsidePruned(br, rest, s, k[..n], pruned);
    ParentPoint(H, height, a, root, s, nextKey, k, n);
    DoomedDeletes(Toward(br, rest), rest[1..]);
    LastBranchWalk(a, k, n);
    StandsInTree(H, height, a, root, s, nextKey, k, n);
    var nodes' := Collapsed(pruned, br.at.key, NodeKey(k[..n]), ParentId(trace), newEdge).nodes;
    if BelowStem(a, k, n) {
      TraceLast(a, 0, k, n);
      var (id, m) := trace[|trace| - 1];
      var par := At(a, k, m);
      CollapsedBelow(pruned, br.at.key, NodeKey(k[..n]), id, newEdge.path, newEdge.child, n, m, par.path);
      CollapsedKeepsHash(pruned, br.at.key, NodeKey(k[..n]), id, newEdge);
      SurvivorCoherent(H, br, rest, s, k[..n], pruned, id, nodes');
      StemNotBelow(H, height, a, root, s, nextKey, k, m);
      StemHashes(H, a, k, m, par, br, n, SurvivorPath(!k[n], Survivor(br, !k[n])),
        SurvivorChild(Survivor(br, !k[n])), s.nodes, nodes');
    } else {
      CollapsedAlone(pruned, br.at.key, NodeKey(k[..n]), ParentId(trace), newEdge);
      SurvivorCoherent(H, br, rest, s, k[..n], pruned, br.at.key, nodes');
      BranchHashes(H, a, k, n, br, SurvivorPath(!k[n], Survivor(br, !k[n])), SurvivorChild(Survivor(br, !k[n])),
        s.nodes, nodes');
    }
  }

  lemma {:induction false} CollapsedKeepsHash(pruned: Store, branchId: ArenaKey, position: TrieKey, id: ArenaKey,
          newEdge: Node)
    requires id in pruned.nodes && id != branchId && pruned.nodes[id].Edge? && newEdge.Edge?
    ensures var nodes' := Collapsed(pruned, branchId, position, Some(id), newEdge).nodes;
            id in nodes' && nodes'[id].hash == pruned.nodes[id].hash
  {
  }

  /** A branch that becomes a stem without a hash. */
  lemma {:induction false} BranchHashes(H: StarkHash, a: Shape, k: Bits, n: nat, br: Shape, path: Bits, y: Shape,
          nodes: NodeMap, nodes': NodeMap)
    requires Coherent(H, a, nodes) && Placed(a) && Reached(a, k, n) && n <= |k| && Slots(a) == nodes.Keys
    requires br == At(a, k, n) && InArena(br) && Coherent(H, y, nodes') && br.at.key in nodes'
             && nodes'[br.at.key].hash.None?
    requires forall e :: e in nodes && e !in Slots(br) ==> e in nodes' && nodes'[e].hash == nodes[e].hash
    ensures var b := Graft(a, k, n, StemAt(br.at, path, y));
            HashesStay(H, a, b, k, n, nodes, nodes') && (n > 0 ==> TopHash(H, b, nodes') == TopHash(H, a, nodes))
  {
    hide HashesStay, TopHash, Graft, At, Reached, Denote, Slots, Placed, Coherent;
    var x := StemAt(br.at, path, y);
    EditHashed(H, a, k, n, br, x, n, nodes, nodes');
    if n > 0 { EditKeepsTop(H, a, k, n, br, x, nodes, nodes'); }
  }

  /** A stem that takes over the bits below the branch it leads to, keeping its own hash. */
  lemma {:induction false} StemHashes(H: StarkHash, a: Shape, k: Bits, m: nat, par: Shape, br: Shape, n: nat,
          path: Bits, y: Shape, nodes: NodeMap, nodes': NodeMap)
    requires Coherent(H, a, nodes) && Placed(a) && Reached(a, k, m) && m <= |k| && Slots(a) == nodes.Keys
    requires par == At(a, k, m) && InArena(par) && par.StemAt? && par.child == br && par.path <= k[m..]
             && par.path != []
    requires n == m + |par.path| && Coherent(H, y, nodes') && par.at.key in nodes && par.at.key in nodes'
    requires nodes'[par.at.key].hash == nodes[par.at.key].hash
    requires forall e :: e in nodes && e !in Slots(br) ==> e in nodes' && nodes'[e].hash == nodes[e].hash
    ensures var b := Graft(a, k, m, StemAt(par.at, par.path + path, y));
            HashesStay(H, a, b, k, n, nodes, nodes') && TopHash(H, b, nodes') == TopHash(H, a, nodes)
  {
    hide HashesStay, TopHash, Graft, At, Reached, Denote, Placed, Coherent;
    var x := StemAt(par.at, par.path + path, y);
    EditHashed(H, a, k, m, par, x, n, nodes, nodes');
    EditKeepsTop(H, a, k, m, par, x, nodes, nodes');
  }

  /** A committed leaf overwritten: the edge above it keeps the hash of the old leaf. */
  lemma {:induction false} StaleHash(H: StarkHash, key: Bits, v: Felt, u: Felt)
    requires HashEdgeNode(H, key, v) != HashEdgeNode(H, key, u)
    ensures var node := Edge(Some(HashEdgeNode(H, key, v)), 0, key, NodeHandle.Hash(v));
            && Coherent(H, StemAt(Slot(0), key, LeafAt(v)), map[0 := node])
            && !Coherent(H, StemAt(Slot(0), key, LeafAt(u)), map[0 := node.(child := NodeHandle.Hash(u))])
  {
    hide HashEdgeNode;
    StemCoherent(H, key, v, HashEdgeNode(H, key, v));
    StemCoherent(H, key, u, HashEdgeNode(H, key, v));
  }

  lemma {:induction false} StemCoherent(H: StarkHash, key: Bits, v: Felt, hash: Felt)
    ensures Coherent(H, StemAt(Slot(0), key, LeafAt(v)), map[0 := Edge(Some(hash), 0, key, NodeHandle.Hash(v))])
            <==> hash == HashEdgeNode(H, key, v)
  {
    hide HashEdgeNode;
    var a, nodes := StemAt(Slot(0), key, LeafAt(v)), map[0 := Edge(Some(hash), 0, key, NodeHandle.Hash(v))];
    assert Denote(LeafAt(v)) == Leaf(v) && Denote(a) == Stem(key, Leaf(v));
    assert Tries.Hash(H, Leaf(v)) == v && Tries.Hash(H, Stem(key, Leaf(v))) == HashEdgeNode(H, key, v);
    assert Coherent(H, LeafAt(v), nodes);
  }

  // ----- the abstract operations -----

  /** What set and delete act on: the trie the tree stands for, and the overlay. */
  datatype State = State(root: Option<Trie>, cache: Overlay)

  /** A key cached as inserted only has its overlay entry replaced; a key whose committed value is already
      the new one is left alone; otherwise trie and overlay both take the value. */
  function SetState(st: State, db: Database, key: Bits, v: Felt): State {
    var b := BitsliceToBytes(key);
    if b in st.cache && st.cache[b].Insert? then st.(cache := st.cache[b := Insert(v)])
    else if FlatGet(db, key) == Some(v) then st
    else State(Some(RootInsert(st.root, key, v)), st.cache[b := Insert(v)])
  }

  /** A key that is not in view is left alone; otherwise trie and overlay both lose it. */
  function DeleteState(st: State, db: Database, key: Bits): State {
    if View(st.cache, db, key).None? || st.root.None? then st
    else State(TrieDelete(st.root.value, key), st.cache[BitsliceToBytes(key) := Remove])
  }

  /** set with the zero value deletes. */
  function Update(st: State, db: Database, key: Bits, v: Felt): State {
    if v == 0 then DeleteState(st, db, key) else SetState(st, db, key, v)
  }

  /** Up to which bit of the key the nodes it passes survive the update with their hashes. */
  function EditDepth(st: State, db: Database, key: Bits, v: Felt): nat {
    var b := BitsliceToBytes(key);
    if st.root.None? then 0
    else if v == 0 then (if View(st.cache, db, key).None? then 0 else LastBranch(st.root.value, key))
    else if (b in st.cache && st.cache[b].Insert?) || FlatGet(db, key) == Some(v) then 0
    else PassedBits(st.root.value, key)
  }

  /** Right cached hashes are right after an edit if no surviving node on the key's way had one, or the trie is the same
      after all; and only then, unless the edit leaves the hash of such a node the same. */
  predicate HashesKept(H: StarkHash, before: Option<Trie>, after: Option<Trie>, key: Bits, d: nat, unmarked: bool,
          hashed: bool) {
    && (unmarked || after == before ==> hashed)
    && (before.Some? && after.Some? && HashesChange(H, before.value, after.value, key, d) && hashed ==> unmarked)
  }

  /** No node before the edit has the hash of a different one after it. */
  ghost predicate ClashFree(H: StarkHash, before: Option<Trie>, after: Option<Trie>) {
    before.Some? && after.Some? ==> ProofNodes.NoClash(H, before.value, after.value)
  }

  /** Then tries with the same root hash are the same, unless one is empty and the other hashes to zero. */
  lemma {:induction false} RootHashBinds(H: StarkHash, before: Option<Trie>, after: Option<Trie>, height: nat)
    requires CanonicalRoot(before, height) && CanonicalRoot(after, height) && ClashFree(H, before, after)
    requires RootHash(H, before) == RootHash(H, after)
    requires before.Some? && after.None? ==> RootHash(H, before) != 0
    requires after.Some? && before.None? ==> RootHash(H, after) != 0
    ensures before == after
  {
    if before.Some? && after.Some? { ProofNodes.HashBinds(H, before.value, after.value, height); }
  }

  /** An edit that empties the trie leaves no hash, right or wrong. */
  lemma {:induction false} NothingPassed(H: StarkHash, t: Trie, key: Bits)
    ensures HashesKept(H, Some(t), None, key, 0, true, true)
  {
  }

  lemma {:induction false} StayIsKept(H: StarkHash, a: Shape, b: Shape, key: Bits, d: nat, nodes: NodeMap,
          nodes': NodeMap)
    requires HashesStay(H, a, b, key, d, nodes, nodes')
    ensures HashesKept(H, Some(Denote(a)), Some(Denote(b)), key, d, Unmarked(a, key, d, nodes), Coherent(H, b, nodes'))
  {
  }

  ghost predicate StateInv(st: State, db: Database, height: nat) {
    1 <= height <= 251 && CanonicalRoot(st.root, height) && FlatInv(st.root, st.cache, db, height)
  }

  /** Binding k in trie and overlay alike keeps them agreeing on every key. */
  lemma {:induction false} BoundAgrees(st: State, db: Database, height: nat, key: Bits, root': Option<Trie>,
          entry: InsertOrRemove<Felt>, q: Bits)
    requires 1 <= height <= 251 && |key| == height && |q| == height && KeyAgrees(st.root, st.cache, db, q)
    requires Find(root', q) ==
               if q == key then (if entry.Insert? then Some(entry.value) else None) else Find(st.root, q)
    ensures KeyAgrees(root', st.cache[BitsliceToBytes(key) := entry], db, q)
  {
    hide BitsliceToBytes, Lookup;
    assert PathOf(BitsliceToBytes(key)) == key && PathOf(BitsliceToBytes(q)) == q;
  }

  lemma {:induction false} BoundInv(st: State, db: Database, height: nat, key: Bits, root': Option<Trie>,
          entry: InsertOrRemove<Felt>)
    requires StateInv(st, db, height) && |key| == height && CanonicalRoot(root', height)
    requires entry.Insert? ==> entry.value != 0
    requires forall q: Bits :: |q| == height ==>
               Find(root', q) ==
                 if q == key then (if entry.Insert? then Some(entry.value) else None) else Find(st.root, q)
    ensures StateInv(State(root', st.cache[BitsliceToBytes(key) := entry]), db, height)
  {
    hide BitsliceToBytes, Lookup, Canonical, KeyAgrees, Typed, Find;
    var cache' := st.cache[BitsliceToBytes(key) := entry];
    forall q: Bits | |q| == height ensures KeyAgrees(root', cache', db, q) {
      BoundAgrees(st, db, height, key, root', entry, q);
    }
    assert PathOf(BitsliceToBytes(key)) == key;
  }

  /** Replacing an inserted overlay entry by another one changes no key's presence. */
  lemma {:induction false} RefreshInv(st: State, db: Database, height: nat, key: Bits, v: Felt)
    requires StateInv(st, db, height) && |key| == height && v != 0
    requires var b := BitsliceToBytes(key); b in st.cache && st.cache[b].Insert?
    ensures StateInv(st.(cache := st.cache[BitsliceToBytes(key) := Insert(v)]), db, height)
  {
    hide BitsliceToBytes, Lookup, Canonical, Typed, KeyAgrees, Find, FlatGet;
    var cache' := st.cache[BitsliceToBytes(key) := Insert(v)];
    forall q: Bits | |q| == height ensures KeyAgrees(st.root, cache', db, q) {
      RefreshAgrees(st, db, key, v, q);
    }
    assert PathOf(BitsliceToBytes(key)) == key;
  }

  lemma {:induction false} RefreshAgrees(st: State, db: Database, key: Bits, v: Felt, q: Bits)
    requires KeyAgrees(st.root, st.cache, db, q)
    requires var b := BitsliceToBytes(key); b in st.cache && st.cache[b].Insert?
    ensures KeyAgrees(st.root, st.cache[BitsliceToBytes(key) := Insert(v)], db, q)
  {
    hide BitsliceToBytes, Lookup, FlatGet;
  }

  lemma {:induction false} UpdateInv(st: State, db: Database, height: nat, key: Bits, v: Felt)
    requires StateInv(st, db, height) && |key| == height
    ensures StateInv(Update(st, db, key, v), db, height)
  {
    hide BitsliceToBytes, Lookup, Canonical, Typed, TrieInsert, TrieDelete;
    var b := BitsliceToBytes(key);
    assert KeyAgrees(st.root, st.cache, db, key);
    if v != 0 {
      if b in st.cache && st.cache[b].Insert? {
        RefreshInv(st, db, height, key, v);
      } else if FlatGet(db, key) != Some(v) {
        InsertRootLaws(st.root, key, v);
        BoundInv(st, db, height, key, Some(RootInsert(st.root, key, v)), Insert(v));
      }
    } else if View(st.cache, db, key).Some? && st.root.Some? {
      DeleteLaws(st.root.value, key);
      BoundInv(st, db, height, key, TrieDelete(st.root.value, key), Remove);
    }
  }

  /** Where no hashes collide, an update that changes the trie changes the hash of every node that survives it on the
      key's way. */
  lemma {:induction false} UpdateChanges(H: StarkHash, st: State, db: Database, height: nat, key: Bits, v: Felt)
    requires StateInv(st, db, height) && |key| == height && ClashFree(H, st.root, Update(st, db, key, v).root)
    ensures var st' := Update(st, db, key, v);
            st.root.Some? && st'.root.Some? && st'.root != st.root ==>
              HashesChange(H, st.root.value, st'.root.value, key, EditDepth(st, db, key, v))
  {
    hide BitsliceToBytes, Lookup, Canonical, Typed, TrieInsert, TrieDelete, HashesChange, PassedBits, LastBranch,
         FlatGet, ProofNodes.NoClash, View;
    assert KeyAgrees(st.root, st.cache, db, key);
    var st' := Update(st, db, key, v);
    if st.root.Some? && st'.root.Some? && st'.root != st.root {
      if v == 0 {
        ProofNodes.DeleteChanges(H, st.root.value, key);
      } else {
        if Lookup(st.root.value, key) == Some(v) { SameInsert(st.root.value, key, v); }
        ProofNodes.InsertChanges(H, st.root.value, key, v);
      }
    }
  }

  /** Inserting what is there changes nothing. */
  lemma {:induction false} SameInsert(t: Trie, k: Bits, v: Felt)
    requires Canonical(t, |k|) && v != 0 && Lookup(t, k) == Some(v)
    ensures TrieInsert(t, k, v) == t
  {
    hide Lookup, Canonical, TrieInsert;
    InsertRootLaws(Some(t), k, v);
    forall q: Bits | |q| == |k| ensures Lookup(TrieInsert(t, k, v), q) == Lookup(t, q) {
      assert Lookup(RootInsert(Some(t), k, v), q) == if q == k then Some(v) else Find(Some(t), q);
    }
    CanonicalUnique(TrieInsert(t, k, v), t, |k|);
  }

  /** Where no hashes collide, right cached hashes are right after an update if and only if no surviving node on the
      key's way had one, or the update leaves the trie the same. */
  lemma {:induction false} KeptExactly(H: StarkHash, st: State, db: Database, height: nat, key: Bits, v: Felt,
          unmarked: bool, hashed: bool)
    requires StateInv(st, db, height) && |key| == height && ClashFree(H, st.root, Update(st, db, key, v).root)
    requires EditDepth(st, db, key, v) == 0 ==> unmarked
    requires HashesKept(H, st.root, Update(st, db, key, v).root, key, EditDepth(st, db, key, v), unmarked, hashed)
    ensures hashed <==> unmarked || Update(st, db, key, v).root == st.root
  {
    hide BitsliceToBytes, Lookup, Canonical, Typed, TrieInsert, TrieDelete, HashesChange, PassedBits, LastBranch,
         FlatGet, ProofNodes.NoClash, View, StateInv;
    UpdateChanges(H, st, db, height, key, v);
    if st.root.Some? && v == 0 && TrieDelete(st.root.value, key).None? { NoBranchLeft(st.root.value, key); }
  }

  /** In a well-typed database a key is in the flat table exactly when it has a value there. */
  lemma {:induction false} FlatPresence(db: Database, height: nat, key: Bits)
    requires Typed(db, height)
    ensures FlatKey(key) in db <==> FlatGet(db, key).Some?
  {
  }
}
