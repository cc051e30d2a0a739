/**
 How a trie is spread over the arena and the database. A shape is a trie that says of every
 non-leaf node where it lives; Holds ties it to the arena, the database and the death row.
 */
module Shapes {
  import opened Wrappers
  import opened BitStrings
  import opened Felts
  import opened PathCodec
  import opened Nodes
  import opened Tries

  datatype Place = Slot(key: ArenaKey) | Disk

  datatype Shape =
    | LeafAt(value: Felt)
    | BranchAt(at: Place, left: Shape, right: Shape)
    | StemAt(at: Place, path: Bits, child: Shape)

  function Denote(a: Shape): Trie {
    match a
    case LeafAt(v) => Leaf(v)
    case BranchAt(_, l, r) => Branch(Denote(l), Denote(r))
    case StemAt(_, q, c) => Stem(q, Denote(c))
  }

  function DenoteRoot(a: Option<Shape>): Option<Trie> {
    if a.None? then None else Some(Denote(a.value))
  }

  predicate InArena(a: Shape) {
    !a.LeafAt? && a.at.Slot?
  }

  /** How a parent refers to this node. */
  function HandleOf(H: StarkHash, a: Shape): NodeHandle {
    if InArena(a) then InMemory(a.at.key) else NodeHandle.Hash(Tries.Hash(H, Denote(a)))
  }

  function OwnSlot(a: Shape): set<ArenaKey> {
    if InArena(a) then {a.at.key} else {}
  }

  function Slots(a: Shape): set<ArenaKey> {
    OwnSlot(a) +
    match a
    case LeafAt(_) => {}
    case BranchAt(_, l, r) => Slots(l) + Slots(r)
    case StemAt(_, _, c) => Slots(c)
  }

  /** Every arena slot is used once, and nothing below a database node is in the arena. */
  predicate Placed(a: Shape) {
    match a
    case LeafAt(_) => true
    case BranchAt(at, l, r) =>
      Placed(l) && Placed(r) && Slots(l) !! Slots(r) &&
      (at.Slot? ==> at.key !in Slots(l) + Slots(r)) && (at.Disk? ==> Slots(l) + Slots(r) == {})
    case StemAt(at, _, c) => Placed(c) && (at.Slot? ==> at.key !in Slots(c)) && (at.Disk? ==> Slots(c) == {})
  }

  datatype Store = Store(nodes: NodeMap, db: Database, dead: set<TrieKey>)

  /** The node's own fields; its cached hash may be anything. */
  predicate Refers(H: StarkHash, n: Node, a: Shape, height: nat) {
    match a
    case LeafAt(_) => false
    case BranchAt(_, l, r) => n.Bare() == Binary(None, height, HandleOf(H, l), HandleOf(H, r))
    case StemAt(_, q, c) => n.Bare() == Edge(None, height, q, HandleOf(H, c))
  }

  /** The node stored at position p. */
  function DbNode(db: Database, p: Bits): Option<Node> {
    if NodeKey(p) in db && db[NodeKey(p)].NodeValue? then Some(db[NodeKey(p)].node) else None
  }

  lemma {:induction false} NoDbNode(db: Database, p: Bits)
    ensures (forall e :: e in db ==> !e.NodeEntry?) ==> DbNode(db, p).None?
  {
  }

  /** The top node of the shape is where the shape says, at position p. */
  predicate HoldsTop(H: StarkHash, a: Shape, p: Bits, s: Store)
    requires !a.LeafAt?
  {
    && |p| < 256
    && match a.at
       case Slot(k) => k in s.nodes && Refers(H, s.nodes[k], a, |p|)
       case Disk =>
         && NodeKey(p) !in s.dead && DbNode(s.db, p).Some?
         && Refers(H, DbNode(s.db, p).value, a, |p|)
         && DbNode(s.db, p).value.hash == Some(Tries.Hash(H, Denote(a)))
  }

  predicate Holds(H: StarkHash, a: Shape, p: Bits, s: Store) {
    match a
    case LeafAt(_) => true
    case BranchAt(_, l, r) => HoldsTop(H, a, p, s) && Holds(H, l, p + [false], s) && Holds(H, r, p + [true], s)
    case StemAt(_, q, c) => HoldsTop(H, a, p, s) && Holds(H, c, p + q, s)
  }

  // ----- frames -----

  /** Nothing at or below position p newly joins the death row. */
  predicate SparesBelow(p: Bits, s: Store, s': Store) {
    forall k :: k in s'.dead && k !in s.dead ==> !(p <= PathOf(k.bytes))
  }

  predicate SameNodes(slots: set<ArenaKey>, s: Store, s': Store) {
    forall k :: k in slots && k in s.nodes ==> k in s'.nodes && s'.nodes[k].Bare() == s.nodes[k].Bare()
  }

  lemma {:induction false} HoldsFrame(H: StarkHash, a: Shape, p: Bits, s: Store, s': Store)
    requires Holds(H, a, p, s) && s'.db == s.db && SameNodes(Slots(a), s, s') && SparesBelow(p, s, s')
    ensures Holds(H, a, p, s')
  {
    match a
    case LeafAt(_) =>
    case BranchAt(_, l, r) =>
      HoldsFrame(H, l, p + [false], s, s');
      HoldsFrame(H, r, p + [true], s, s');
    case StemAt(_, q, c) =>
      HoldsFrame(H, c, p + q, s, s');
  }

  // ----- walking along a key -----

  function Toward(a: Shape, k: Bits): Shape
    requires Follows(a, k)
  {
    if a.StemAt? then a.child else if k[0] then a.right else a.left
  }

  /** The key goes through this node to one of its children. */
  predicate Follows(a: Shape, k: Bits) {
    match a
    case LeafAt(_) => false
    case BranchAt(_, _, _) => k != []
    case StemAt(_, q, _) => q <= k
  }

  function StepLen(a: Shape): nat {
    if a.StemAt? then |a.path| else 1
  }

  /** The first n bits of k lead from the top to a node boundary through loaded nodes only. */
  predicate Reached(a: Shape, k: Bits, n: nat)
    decreases a
  {
    n == 0 ||
    (InArena(a) && Follows(a, k) && 0 < StepLen(a) <= n && Reached(Toward(a, k), k[StepLen(a)..], n - StepLen(a)))
  }

  function At(a: Shape, k: Bits, n: nat): Shape
    requires Reached(a, k, n)
    decreases a
  {
    if n == 0 then a else At(Toward(a, k), k[StepLen(a)..], n - StepLen(a))
  }

  /** The arena keys and heights of the nodes passed on the way to bit n. */
  function TraceTo(a: Shape, d: nat, k: Bits, n: nat): seq<(ArenaKey, nat)>
    requires Reached(a, k, n)
    decreases a
  {
    if n == 0 then [] else
      [(a.at.key, d)] + TraceTo(Toward(a, k), d + StepLen(a), k[StepLen(a)..], n - StepLen(a))
  }

  /** a with the child toward k replaced. */
  function Redirect(a: Shape, k: Bits, x: Shape): Shape
    requires Follows(a, k)
  {
    if a.StemAt? then a.(child := x) else if k[0] then a.(right := x) else a.(left := x)
  }

  /** a with the subtree at bit n of k replaced. */
  function Graft(a: Shape, k: Bits, n: nat, x: Shape): Shape
    requires Reached(a, k, n)
    decreases a
  {
    if n == 0 then x else
      Redirect(a, k, Graft(Toward(a, k), k[StepLen(a)..], n - StepLen(a), x))
  }

  // ----- laws of walking -----

  lemma {:induction false} FirstStep(a: Shape, d: nat, k: Bits)
    requires InArena(a) && Follows(a, k) && StepLen(a) > 0
    ensures Reached(a, k, StepLen(a)) && At(a, k, StepLen(a)) == Toward(a, k)
    ensures TraceTo(a, d, k, StepLen(a)) == [(a.at.key, d)]
  {
    assert TraceTo(Toward(a, k), d + StepLen(a), k[StepLen(a)..], 0) == [];
  }

  /** Walking past the top node is walking in its child. */
  lemma {:induction false} Past(a: Shape, d: nat, k: Bits, n: nat)
    requires InArena(a) && Follows(a, k) && 0 < StepLen(a) <= n
             && Reached(Toward(a, k), k[StepLen(a)..], n - StepLen(a))
    ensures var c, e := Toward(a, k), StepLen(a);
            && Reached(a, k, n) && At(a, k, n) == At(c, k[e..], n - e)
            && TraceTo(a, d, k, n) == [(a.at.key, d)] + TraceTo(c, d + e, k[e..], n - e)
  {
  }

  /** A walk of some bits: the first step, and the rest below it. */
  lemma {:induction false} Unroll(a: Shape, d: nat, k: Bits, n: nat, x: Shape)
    requires Reached(a, k, n) && n > 0
    ensures var c, e := Toward(a, k), StepLen(a);
            && InArena(a) && Follows(a, k) && 0 < e <= n && Reached(c, k[e..], n - e)
            && At(a, k, n) == At(c, k[e..], n - e)
            && TraceTo(a, d, k, n) == [(a.at.key, d)] + TraceTo(c, d + e, k[e..], n - e)
            && Graft(a, k, n, x) == Redirect(a, k, Graft(c, k[e..], n - e, x))
  {
  }

  lemma {:induction false} NoWalk(a: Shape, d: nat, k: Bits, x: Shape)
    ensures Reached(a, k, 0) && At(a, k, 0) == a && TraceTo(a, d, k, 0) == [] && Graft(a, k, 0, x) == x
  {
  }

  lemma {:induction false} RedirectStep(a: Shape, k: Bits, x: Shape)
    requires Follows(a, k)
    ensures var b := Redirect(a, k, x);
            Follows(b, k) && StepLen(b) == StepLen(a) && Toward(b, k) == x && b.at == a.at
              && (InArena(b) <==> InArena(a))
  {
  }

  /** One more step along the key. */
  lemma {:induction false} StepOn(a: Shape, d: nat, k: Bits, n: nat)
    requires Reached(a, k, n) && InArena(At(a, k, n)) && n <= |k|
    requires Follows(At(a, k, n), k[n..]) && StepLen(At(a, k, n)) > 0
    ensures var sub := At(a, k, n);
            var m := n + StepLen(sub);
            && Reached(a, k, m) && At(a, k, m) == Toward(sub, k[n..])
            && TraceTo(a, d, k, m) == TraceTo(a, d, k, n) + [(sub.at.key, d + n)]
    decreases a
  {
    if n == 0 {
      assert k[0..] == k;
      FirstStep(a, d, k);
    } else {
      var e := StepLen(a);
      var c, r := Toward(a, k), k[e..];
      Past(a, d, k, n);
      var sub := At(c, r, n - e);
      hide TraceTo, At, Reached;
      assert r[n - e..] == k[n..];
      StepOn(c, d + e, r, n - e);
      Past(a, d, k, n + StepLen(sub));
    }
  }

  lemma {:induction false} ReachedBound(a: Shape, k: Bits, n: nat)
    requires Reached(a, k, n)
    ensures n <= |k|
    decreases a
  {
    if n > 0 { ReachedBound(Toward(a, k), k[StepLen(a)..], n - StepLen(a)); }
  }

  lemma {:induction false} AtCanonical(a: Shape, h: nat, k: Bits, n: nat)
    requires Canonical(Denote(a), h) && Reached(a, k, n)
    ensures n <= h && Canonical(Denote(At(a, k, n)), h - n)
    decreases a
  {
    if n > 0 { AtCanonical(Toward(a, k), h - StepLen(a), k[StepLen(a)..], n - StepLen(a)); }
  }

  lemma {:induction false} AtPlaced(a: Shape, k: Bits, n: nat)
    requires Placed(a) && Reached(a, k, n)
    ensures Placed(At(a, k, n)) && Slots(At(a, k, n)) <= Slots(a)
    decreases a
  {
    if n > 0 { AtPlaced(Toward(a, k), k[StepLen(a)..], n - StepLen(a)); }
  }

  lemma {:induction false} AtHolds(H: StarkHash, a: Shape, p: Bits, k: Bits, n: nat, s: Store)
    requires Holds(H, a, p, s) && Reached(a, k, n) && n <= |k|
    ensures Holds(H, At(a, k, n), p + k[..n], s)
    decreases a
  {
    if n == 0 {
      assert p + k[..0] == p;
    } else {
      var e := StepLen(a);
      if a.StemAt? { assert k[..e] == a.path; } else { assert k[..e] == [k[0]]; }
      AtHolds(H, Toward(a, k), p + k[..e], k[e..], n - e, s);
      assert p + k[..e] + k[e..][..n - e] == p + k[..n];
    }
  }

  /** Two keys that agree on the first n bits reach the same node. */
  lemma {:induction false} SamePrefixSameNode(a: Shape, d: nat, j: Bits, k: Bits, n: nat)
    requires Reached(a, j, n) && n <= |j| && n <= |k| && j[..n] == k[..n]
    ensures Reached(a, k, n) && At(a, k, n) == At(a, j, n) && TraceTo(a, d, k, n) == TraceTo(a, d, j, n)
    decreases a
  {
    if n > 0 {
      var e := StepLen(a);
      SamePrefixStep(j, k, e, n);
      assert Follows(a, k) && Toward(a, k) == Toward(a, j);
      hide Follows, Toward, StepLen;
      SamePrefixSameNode(Toward(a, j), d + e, j[e..], k[e..], n - e);
    }
  }

  /** Entry i of the trace is the loaded node at that entry's height. */
  lemma {:induction false} TraceEntry(a: Shape, d: nat, k: Bits, n: nat, i: nat)
    requires Reached(a, k, n) && i < |TraceTo(a, d, k, n)|
    ensures var (key, height) := TraceTo(a, d, k, n)[i];
            && d <= height && height - d < n && Reached(a, k, height - d)
            && InArena(At(a, k, height - d)) && At(a, k, height - d).at.key == key
            && TraceTo(a, d, k, height - d) == TraceTo(a, d, k, n)[..i]
    decreases a
  {
    if i > 0 {
      var e := StepLen(a);
      Past(a, d, k, n);
      hide TraceTo, At, Reached;
      TraceEntry(Toward(a, k), d + e, k[e..], n - e, i - 1);
      Past(a, d, k, TraceTo(a, d, k, n)[i].1 - d);
    }
  }

  // ----- replacing the subtree a walk ends at -----

  lemma {:induction false} StepPosition(a: Shape, k: Bits)
    requires Follows(a, k)
    ensures StepLen(a) <= |k| && k[..StepLen(a)] == if a.StemAt? then a.path else [k[0]]
  {
  }

  lemma {:induction false} TowardHolds(H: StarkHash, a: Shape, p: Bits, k: Bits, s: Store)
    requires Holds(H, a, p, s) && Follows(a, k)
    ensures StepLen(a) <= |k| && Holds(H, Toward(a, k), p + k[..StepLen(a)], s)
  {
    StepPosition(a, k);
  }

  lemma {:induction false} TowardSlots(a: Shape, k: Bits)
    requires Placed(a) && InArena(a) && Follows(a, k)
    ensures Placed(Toward(a, k)) && Slots(Toward(a, k)) <= Slots(a) && a.at.key !in Slots(Toward(a, k))
  {
  }

  /** Everything that newly joins the death row is at or below position q. */
  predicate DeadUnder(q: Bits, s: Store, s': Store) {
    forall e :: e in s'.dead && e !in s.dead ==> q <= PathOf(e.bytes)
  }

  /** In the new store, x stands at position q in place of sub; the slots in rest are left alone. */
  predicate Replaces(H: StarkHash, sub: Shape, x: Shape, q: Bits, rest: set<ArenaKey>, s: Store, s': Store) {
    && InArena(sub) && InArena(x) && x.at == sub.at
    && Placed(x) && Holds(H, x, q, s') && Slots(x) !! rest
    && s'.db == s.db && SameNodes(rest, s, s') && DeadUnder(q, s, s')
  }

  lemma {:induction false} RedirectSlots(a: Shape, k: Bits, x: Shape, rest: set<ArenaKey>)
    requires Placed(a) && InArena(a) && Follows(a, k) && Slots(a) !! rest
    requires Placed(x) && Slots(x) !! rest + (Slots(a) - Slots(Toward(a, k)))
    ensures var b := Redirect(a, k, x);
            && InArena(b) && b.at == a.at && Placed(b) && Slots(b) !! rest
            && Slots(b) == Slots(a) - Slots(Toward(a, k)) + Slots(x)
    ensures a.at.key in Slots(a) && a.at.key !in Slots(Toward(a, k))
    ensures a.BranchAt? ==> Slots(if k[0] then a.left else a.right) <= Slots(a) - Slots(Toward(a, k)) - {a.at.key}
  {
  }

  /** The sibling of a changed child is untouched. */
  lemma {:induction false} SiblingHolds(H: StarkHash, a: Shape, p: Bits, k: Bits, rest: set<ArenaKey>, s: Store,
          s': Store)
    requires Holds(H, a, p, s) && a.BranchAt? && k != [] && s'.db == s.db && |p| < 256
    requires Slots(if k[0] then a.left else a.right) <= rest && SameNodes(rest, s, s') && DeadUnder(p + k[..1], s, s')
    ensures Holds(H, if k[0] then a.left else a.right, p + [!k[0]], s')
  {
    hide HoldsTop;
    assert (p + k[..1])[|p|] == k[0];
    HoldsFrame(H, if k[0] then a.left else a.right, p + [!k[0]], s, s');
  }

  /** A replaced child makes the parent a replacement of itself. */
  lemma {:induction false} RedirectReplaces(H: StarkHash, a: Shape, p: Bits, k: Bits, x: Shape, rest: set<ArenaKey>,
          s: Store, s': Store)
    requires Holds(H, a, p, s) && Placed(a) && InArena(a) && Follows(a, k) && Slots(a) !! rest
    requires Replaces(H, Toward(a, k), x, p + k[..StepLen(a)], rest + (Slots(a) - Slots(Toward(a, k))), s, s')
    ensures Replaces(H, a, Redirect(a, k, x), p, rest, s, s')
    ensures Slots(Redirect(a, k, x)) == Slots(a) - Slots(Toward(a, k)) + Slots(x)
  {
    StepPosition(a, k);
    RedirectSlots(a, k, x, rest);
    if a.BranchAt? { SiblingHolds(H, a, p, k, rest + (Slots(a) - Slots(Toward(a, k))), s, s'); }
    hide Slots, Placed, Denote;
    assert HandleOf(H, x) == HandleOf(H, Toward(a, k));
    assert Refers(H, s'.nodes[a.at.key], Redirect(a, k, x), |p|);
  }

  /** Replacing a loaded subtree by another one in the same slot, with everything new kept below it,
      leaves the whole shape represented. */
  lemma {:induction false} GraftReplaces(H: StarkHash, a: Shape, p: Bits, k: Bits, n: nat, x: Shape,
          rest: set<ArenaKey>, s: Store, s': Store)
    requires Holds(H, a, p, s) && Placed(a) && Reached(a, k, n) && n <= |k| && Slots(a) !! rest
    requires Replaces(H, At(a, k, n), x, p + k[..n], rest + (Slots(a) - Slots(At(a, k, n))), s, s')
    ensures Replaces(H, a, Graft(a, k, n, x), p, rest, s, s')
    ensures Slots(Graft(a, k, n, x)) == Slots(a) - Slots(At(a, k, n)) + Slots(x)
    decreases a
  {
    hide HoldsTop, SameNodes, DeadUnder, Refers, Denote, HandleOf;
    if n == 0 {
      assert p + k[..0] == p && rest + (Slots(a) - Slots(a)) == rest;
    } else {
      var e := StepLen(a);
      var c, r, m := Toward(a, k), k[e..], n - e;
      var sub := At(c, r, m);
      assert At(a, k, n) == sub;
      TowardHolds(H, a, p, k, s);
      TowardSlots(a, k);
      AtPlaced(c, r, m);
      PrefixInTwo(p, k, e, n);
      var rest' := rest + (Slots(a) - Slots(c));
      assert rest' + (Slots(c) - Slots(sub)) == rest + (Slots(a) - Slots(sub));
      GraftReplaces(H, c, p + k[..e], r, m, x, rest', s, s');
      RedirectReplaces(H, a, p, k, Graft(c, r, m, x), rest, s, s');
    }
  }

  lemma {:induction false} GraftDenote(a: Shape, k: Bits, n: nat, x: Shape)
    requires Reached(a, k, n) && Denote(x) == Denote(At(a, k, n))
    ensures Denote(Graft(a, k, n, x)) == Denote(a)
    decreases a
  {
    if n > 0 { GraftDenote(Toward(a, k), k[StepLen(a)..], n - StepLen(a), x); }
  }

  lemma {:induction false} RedirectInsert(a: Shape, k: Bits, x: Shape, v: Felt)
    requires Follows(a, k) && Denote(x) == TrieInsert(Denote(Toward(a, k)), k[StepLen(a)..], v)
    ensures Denote(Redirect(a, k, x)) == TrieInsert(Denote(a), k, v)
  {
    if a.StemAt? { assert CommonLen(a.path, k) == |a.path|; }
  }

  /** Inserting below a walked prefix is inserting into the whole trie. */
  lemma {:induction false} GraftInsert(a: Shape, k: Bits, n: nat, x: Shape, v: Felt)
    requires Reached(a, k, n) && n <= |k| && Denote(x) == TrieInsert(Denote(At(a, k, n)), k[n..], v)
    ensures Denote(Graft(a, k, n, x)) == TrieInsert(Denote(a), k, v)
    decreases a
  {
    if n == 0 {
      assert k[0..] == k;
    } else {
      var e := StepLen(a);
      var c, r, m := Toward(a, k), k[e..], n - e;
      assert r[m..] == k[n..] && At(a, k, n) == At(c, r, m);
      GraftInsert(c, r, m, x, v);
      RedirectInsert(a, k, Graft(c, r, m, x), v);
    }
  }

  /** The walk enters its last node from a stem. */
  predicate BelowStem(a: Shape, k: Bits, n: nat)
    requires Reached(a, k, n)
    decreases a
  {
    n > 0 && if n == StepLen(a) then a.StemAt? else BelowStem(Toward(a, k), k[StepLen(a)..], n - StepLen(a))
  }

  lemma {:induction false} GraftKind(a: Shape, k: Bits, n: nat, x: Shape)
    requires Reached(a, k, n) && n > 0
    ensures Graft(a, k, n, x).StemAt? <==> a.StemAt?
  {
  }

  lemma {:induction false} TowardCanonical(a: Shape, k: Bits)
    requires Canonical(Denote(a), |k|) && Follows(a, k)
    ensures StepLen(a) <= |k| && Canonical(Denote(Toward(a, k)), |k[StepLen(a)..]|)
    ensures a.StemAt? ==> !Toward(a, k).StemAt?
  {
  }

  lemma {:induction false} RedirectDelete(a: Shape, k: Bits, x: Shape)
    requires Follows(a, k) && StepLen(a) <= |k| && (a.StemAt? ==> !x.StemAt?)
    requires TrieDelete(Denote(Toward(a, k)), k[StepLen(a)..]) == Some(Denote(x))
    ensures TrieDelete(Denote(a), k) == Some(Denote(Redirect(a, k, x)))
  {
  }

  /** Deleting below a walked prefix is deleting from the whole trie, unless a stem would be left under a stem. */
  lemma {:induction false} GraftDelete(a: Shape, k: Bits, n: nat, x: Shape)
    requires Canonical(Denote(a), |k|) && Reached(a, k, n) && n <= |k|
    requires TrieDelete(Denote(At(a, k, n)), k[n..]) == Some(Denote(x))
    requires x.StemAt? ==> !BelowStem(a, k, n)
    ensures TrieDelete(Denote(a), k) == Some(Denote(Graft(a, k, n, x)))
    decreases a
  {
    hide Reached, At, Graft, Redirect;
    if n == 0 {
      NoWalk(a, 0, k, x);
      assert k[0..] == k;
    } else {
      Unroll(a, 0, k, n, x);
      var e := StepLen(a);
      var c, r, m := Toward(a, k), k[e..], n - e;
      assert r[m..] == k[n..];
      if m == 0 { NoWalk(c, 0, r, x); } else { GraftKind(c, r, m, x); }
      TowardCanonical(a, k);
      hide Denote, Canonical, TrieDelete;
      GraftDelete(c, r, m, x);
      RedirectDelete(a, k, Graft(c, r, m, x));
    }
  }

  /** Walking again after a replacement ends at the new subtree, past the same nodes. */
  lemma {:induction false} GraftWalk(a: Shape, d: nat, k: Bits, n: nat, x: Shape)
    requires Reached(a, k, n) && InArena(At(a, k, n)) && InArena(x) && x.at == At(a, k, n).at
    ensures var b := Graft(a, k, n, x);
            && Reached(b, k, n) && At(b, k, n) == x && TraceTo(b, d, k, n) == TraceTo(a, d, k, n)
            && InArena(b) && b.at == a.at
    decreases a
  {
    hide Reached, At, TraceTo, Graft, Redirect;
    if n == 0 {
      NoWalk(a, d, k, x);
      NoWalk(x, d, k, x);
    } else {
      Unroll(a, d, k, n, x);
      var e := StepLen(a);
      var c, r := Toward(a, k), k[e..];
      GraftWalk(c, d + e, r, n - e, x);
      RedirectStep(a, k, Graft(c, r, n - e, x));
      Past(Graft(a, k, n, x), d, k, n);
    }
  }

  /** A walk through the shape is a walk through its trie. */
  lemma {:induction false} ReachedBoundary(a: Shape, k: Bits, n: nat)
    requires Reached(a, k, n)
    ensures Boundary(Denote(a), k, n) && Sub(Denote(a), k, n) == Denote(At(a, k, n))
    decreases a
  {
    if n > 0 { ReachedBoundary(Toward(a, k), k[StepLen(a)..], n - StepLen(a)); }
  }

  lemma {:induction false} AtLookup(a: Shape, k: Bits, n: nat)
    requires Reached(a, k, n)
    ensures n <= |k| && Lookup(Denote(At(a, k, n)), k[n..]) == Lookup(Denote(a), k)
  {
    ReachedBoundary(a, k, n);
    SubLookup(Denote(a), k, n);
  }

  /** The node at the given height (counted from d) is the last one before bit n, and in the given slot. */
  predicate IsParent(a: Shape, d: nat, k: Bits, n: nat, key: ArenaKey, height: nat)
    requires Reached(a, k, n)
  {
    && d <= height && height - d < n && height - d <= |k| && Reached(a, k, height - d)
    && var par := At(a, k, height - d);
       && InArena(par) && par.at.key == key && Follows(par, k[height - d..])
       && height - d + StepLen(par) == n && Toward(par, k[height - d..]) == At(a, k, n)
       && (BelowStem(a, k, n) <==> par.StemAt?)
  }

  lemma {:induction false} ParentHere(a: Shape, d: nat, k: Bits)
    requires InArena(a) && Follows(a, k) && StepLen(a) > 0
    ensures Reached(a, k, StepLen(a)) && IsParent(a, d, k, StepLen(a), a.at.key, d)
    ensures TraceTo(a, d, k, StepLen(a)) == [(a.at.key, d)]
  {
    assert k[0..] == k;
    FirstStep(a, d, k);
  }

  lemma {:induction false} ParentBelow(a: Shape, d: nat, k: Bits, n: nat, key: ArenaKey, height: nat)
    requires Reached(a, k, n) && n > StepLen(a) && n <= |k| && Reached(Toward(a, k), k[StepLen(a)..], n - StepLen(a))
    requires IsParent(Toward(a, k), d + StepLen(a), k[StepLen(a)..], n - StepLen(a), key, height)
    ensures IsParent(a, d, k, n, key, height)
    ensures var e := StepLen(a);
            TraceTo(a, d, k, height - d) == [(a.at.key, d)] + TraceTo(Toward(a, k), d + e, k[e..], height - d - e)
  {
    var e, m := StepLen(a), height - d;
    Unroll(a, d, k, n, a);
    Past(a, d, k, m);
    assert k[e..][m - e..] == k[m..];
    assert BelowStem(a, k, n) == BelowStem(Toward(a, k), k[e..], n - e);
    hide TraceTo, At, Reached, BelowStem, Graft;
  }

  /** The last entry of a trace is the parent of the node the walk ends at. */
  lemma {:induction false} TraceLast(a: Shape, d: nat, k: Bits, n: nat)
    requires Reached(a, k, n) && n > 0 && n <= |k|
    ensures TraceTo(a, d, k, n) != []
    ensures var trace := TraceTo(a, d, k, n);
            var (key, height) := trace[|trace| - 1];
            IsParent(a, d, k, n, key, height) && TraceTo(a, d, k, height - d) == trace[..|trace| - 1]
    decreases a
  {
    hide TraceTo, At, Reached, BelowStem, Graft, IsParent;
    Unroll(a, d, k, n, a);
    var e := StepLen(a);
    var c, r := Toward(a, k), k[e..];
    if n == e {
      ParentHere(a, d, k);
      NoWalk(a, d, k, a);
    } else {
      TraceLast(c, d + e, r, n - e);
      var trace := TraceTo(c, d + e, r, n - e);
      var (key, height) := trace[|trace| - 1];
      ParentBelow(a, d, k, n, key, height);
    }
  }

  lemma {:induction false} StemNotBelowStem(a: Shape, h: nat, k: Bits, n: nat)
    requires Canonical(Denote(a), h) && Reached(a, k, n) && At(a, k, n).StemAt?
    ensures !BelowStem(a, k, n)
    decreases a
  {
    if n > 0 {
      var e := StepLen(a);
      var c, r := Toward(a, k), k[e..];
      Past(a, 0, k, n);
      if n == e {
        assert At(c, r, 0) == c;
      } else {
        StemNotBelowStem(c, h - e, r, n - e);
      }
    }
  }

  // ----- cached hashes -----

  /** Whatever hash a loaded node has cached is its own. */
  predicate Coherent(H: StarkHash, a: Shape, nodes: NodeMap) {
    && (InArena(a) && a.at.key in nodes && nodes[a.at.key].hash.Some? ==>
          nodes[a.at.key].hash.value == Tries.Hash(H, Denote(a)))
    && match a
       case LeafAt(_) => true
       case BranchAt(_, l, r) => Coherent(H, l, nodes) && Coherent(H, r, nodes)
       case StemAt(_, _, c) => Coherent(H, c, nodes)
  }

  predicate SameHashes(slots: set<ArenaKey>, nodes: NodeMap, nodes': NodeMap) {
    forall k :: k in slots ==> (k in nodes <==> k in nodes') && (k in nodes ==> nodes[k].hash == nodes'[k].hash)
  }

  lemma {:induction false} CoherentFrame(H: StarkHash, a: Shape, nodes: NodeMap, nodes': NodeMap)
    requires Coherent(H, a, nodes) && SameHashes(Slots(a), nodes, nodes')
    ensures Coherent(H, a, nodes')
  {
    match a
    case LeafAt(_) =>
    case BranchAt(_, l, r) =>
      CoherentFrame(H, l, nodes, nodes');
      CoherentFrame(H, r, nodes, nodes');
    case StemAt(_, _, c) => CoherentFrame(H, c, nodes, nodes');
  }

  lemma {:induction false} NoneCached(H: StarkHash, a: Shape, nodes: NodeMap)
    requires forall k :: k in nodes ==> nodes[k].hash.None?
    ensures Coherent(H, a, nodes)
  {
    match a
    case LeafAt(_) =>
    case BranchAt(_, l, r) =>
      NoneCached(H, l, nodes);
      NoneCached(H, r, nodes);
    case StemAt(_, _, c) => NoneCached(H, c, nodes);
  }

  lemma {:induction false} AtCoherent(H: StarkHash, a: Shape, k: Bits, n: nat, nodes: NodeMap)
    requires Coherent(H, a, nodes) && Reached(a, k, n)
    ensures Coherent(H, At(a, k, n), nodes)
    decreases a
  {
    if n > 0 { AtCoherent(H, Toward(a, k), k[StepLen(a)..], n - StepLen(a), nodes); }
  }

  /** Replacing a subtree by an equivalent coherent one keeps the whole coherent. */
  lemma {:induction false} GraftCoherent(H: StarkHash, a: Shape, k: Bits, n: nat, x: Shape, nodes: NodeMap,
          nodes': NodeMap)
    requires Coherent(H, a, nodes) && Placed(a) && Reached(a, k, n) && Denote(x) == Denote(At(a, k, n))
    requires SameHashes(Slots(a) - Slots(At(a, k, n)), nodes, nodes') && Coherent(H, x, nodes')
    ensures Coherent(H, Graft(a, k, n, x), nodes')
    decreases a
  {
    if n > 0 {
      var e := StepLen(a);
      var c := Toward(a, k);
      TowardSlots(a, k);
      AtPlaced(c, k[e..], n - e);
      GraftDenote(a, k, n, x);
      GraftCoherent(H, c, k[e..], n - e, x, nodes, nodes');
      if a.BranchAt? { CoherentFrame(H, if k[0] then a.left else a.right, nodes, nodes'); }
    }
  }

  /** No node above bit n of the key has another hash cached than the one it gets when the subtree there becomes x. */
  predicate HashesFit(H: StarkHash, a: Shape, k: Bits, n: nat, x: Shape, nodes: NodeMap)
    requires Reached(a, k, n)
    decreases a
  {
    n == 0 ||
    (&& (a.at.key in nodes && nodes[a.at.key].hash.Some? ==>
           nodes[a.at.key].hash.value == Tries.Hash(H, Denote(Graft(a, k, n, x))))
     && HashesFit(H, Toward(a, k), k[StepLen(a)..], n - StepLen(a), x, nodes))
  }

  /** Edits clear no cached hashes: after one the cached hashes are right exactly when those of the new subtree are,
      and those above it happen to fit. */
  lemma {:induction false} GraftCoherentExactly(H: StarkHash, a: Shape, k: Bits, n: nat, x: Shape, nodes: NodeMap,
          nodes': NodeMap)
    requires Coherent(H, a, nodes) && Placed(a) && Reached(a, k, n)
    requires SameHashes(Slots(a) - Slots(At(a, k, n)), nodes, nodes')
    ensures Coherent(H, Graft(a, k, n, x), nodes') <==> Coherent(H, x, nodes') && HashesFit(H, a, k, n, x, nodes)
    decreases a
  {
    if n > 0 {
      var e := StepLen(a);
      var c := Toward(a, k);
      TowardSlots(a, k);
      AtPlaced(c, k[e..], n - e);
      assert a.at.key in Slots(a) && a.at.key !in Slots(At(a, k, n));
      GraftCoherentExactly(H, c, k[e..], n - e, x, nodes, nodes');
      if a.BranchAt? { CoherentFrame(H, if k[0] then a.left else a.right, nodes, nodes'); }
    }
  }

  /** Every node the key passes before bit n is loaded and has no hash cached. Nodes on disk all have one. */
  predicate Unmarked(a: Shape, k: Bits, n: nat, nodes: NodeMap)
    decreases a
  {
    n == 0 ||
    (&& InArena(a) && a.at.key in nodes && nodes[a.at.key].hash.None?
     && Follows(a, k) && 0 < StepLen(a) <= n && Unmarked(Toward(a, k), k[StepLen(a)..], n - StepLen(a), nodes))
  }

  /** Unless a hash stays the same by accident, the cached hashes above an edit fit if and only if there are none. */
  lemma {:induction false} FitsExactly(H: StarkHash, a: Shape, k: Bits, n: nat, x: Shape, nodes: NodeMap)
    requires Coherent(H, a, nodes) && Reached(a, k, n) && Slots(a) <= nodes.Keys
    ensures Unmarked(a, k, n, nodes) ==> HashesFit(H, a, k, n, x, nodes)
    ensures HashesChange(H, Denote(a), Denote(Graft(a, k, n, x)), k, n) ==>
              (HashesFit(H, a, k, n, x, nodes) <==> Unmarked(a, k, n, nodes))
    decreases a
  {
    if n > 0 {
      var e := StepLen(a);
      FitsExactly(H, Toward(a, k), k[e..], n - e, x, nodes);
      PassShape(a, k);
      PassShape(Graft(a, k, n, x), k);
      assert a.at.key in Slots(a);
    }
  }

  lemma {:induction false} PassShape(a: Shape, k: Bits)
    requires Follows(a, k) && StepLen(a) > 0
    ensures Continues(Denote(a), k) && NextLen(Denote(a)) == StepLen(a) && Next(Denote(a), k) == Denote(Toward(a, k))
  {
  }

  /** The hash that stands for the node without looking further: a leaf's value, the stored or the cached hash. */
  function TopHash(H: StarkHash, a: Shape, nodes: NodeMap): Option<Felt> {
    if InArena(a) then (if a.at.key in nodes then nodes[a.at.key].hash else None)
    else Some(Tries.Hash(H, Denote(a)))
  }

  /** A subtree that keeps the hash cached at its top. */
  predicate KeepsTop(sub: Shape, x: Shape, nodes: NodeMap, nodes': NodeMap) {
    && InArena(sub) && InArena(x) && x.at == sub.at && sub.at.key in nodes && sub.at.key in nodes'
    && nodes'[sub.at.key].hash == nodes[sub.at.key].hash
  }

  predicate BelowCoherent(H: StarkHash, x: Shape, nodes: NodeMap) {
    match x
    case LeafAt(_) => true
    case BranchAt(_, l, r) => Coherent(H, l, nodes) && Coherent(H, r, nodes)
    case StemAt(_, _, c) => Coherent(H, c, nodes)
  }

  /** What becomes of coherent cached hashes when a turns into b by an edit of the key. With d the bit up to which nodes
      keep their hashes: if none of these had one, or the trie is the same after all, all cached hashes stay right; and
      if they stay right, none had one, unless a hash stays the same by accident. */
  predicate HashesStay(H: StarkHash, a: Shape, b: Shape, k: Bits, d: nat, nodes: NodeMap, nodes': NodeMap) {
    && (Unmarked(a, k, d, nodes) || Denote(b) == Denote(a) ==> Coherent(H, b, nodes'))
    && (HashesChange(H, Denote(a), Denote(b), k, d) && Coherent(H, b, nodes') ==> Unmarked(a, k, d, nodes))
  }

  /** Past one more node. */
  lemma {:induction false} UnmarkedOn(a: Shape, k: Bits, n: nat, nodes: NodeMap)
    requires Reached(a, k, n) && n <= |k| && InArena(At(a, k, n)) && Follows(At(a, k, n), k[n..])
             && StepLen(At(a, k, n)) > 0
    requires Slots(a) <= nodes.Keys
    ensures At(a, k, n).at.key in nodes
    ensures Unmarked(a, k, n + StepLen(At(a, k, n)), nodes) <==>
              Unmarked(a, k, n, nodes) && nodes[At(a, k, n).at.key].hash.None?
    decreases a
  {
    if n == 0 {
      assert k[0..] == k && a.at.key in Slots(a);
    } else {
      var e := StepLen(a);
      assert k[e..][n - e..] == k[n..];
      UnmarkedOn(Toward(a, k), k[e..], n - e, nodes);
    }
  }

  lemma {:induction false} ChangeAt(H: StarkHash, a: Shape, k: Bits, n: nat, x: Shape, d: nat)
    requires Reached(a, k, n) && n < d && HashesChange(H, Denote(a), Denote(Graft(a, k, n, x)), k, d)
    ensures HashesChange(H, Denote(a), Denote(Graft(a, k, n, x)), k, n)
    ensures Tries.Hash(H, Denote(At(a, k, n))) != Tries.Hash(H, Denote(x))
    decreases a
  {
    hide Reached, At, Graft, Redirect, Denote, Tries.Hash;
    if n == 0 {
      NoWalk(a, 0, k, x);
    } else {
      Unroll(a, 0, k, n, x);
      var e := StepLen(a);
      RedirectStep(a, k, Graft(Toward(a, k), k[e..], n - e, x));
      PassShape(a, k);
      PassShape(Graft(a, k, n, x), k);
      ChangeAt(H, Toward(a, k), k[e..], n - e, x, d - e);
    }
  }

  /** An edit that leaves the trie the same leaves every subtrie above it the same. */
  lemma {:induction false} SameFits(H: StarkHash, a: Shape, k: Bits, n: nat, x: Shape, nodes: NodeMap)
    requires Coherent(H, a, nodes) && Reached(a, k, n) && Denote(Graft(a, k, n, x)) == Denote(a)
    ensures HashesFit(H, a, k, n, x, nodes) && Denote(x) == Denote(At(a, k, n))
    decreases n
  {
    hide Reached, At, Graft, Redirect, Denote, Tries.Hash;
    if n == 0 {
      NoWalk(a, 0, k, x);
    } else {
      Unroll(a, 0, k, n, x);
      var e := StepLen(a);
      RedirectStep(a, k, Graft(Toward(a, k), k[e..], n - e, x));
      PassShape(a, k);
      PassShape(Graft(a, k, n, x), k);
      SameFits(H, Toward(a, k), k[e..], n - e, x, nodes);
    }
  }

  /** The subtree at bit n of the key becomes x, whose top either has no hash, so that only the nodes above keep theirs,
      or takes over the one there was. */
  lemma {:induction false} EditHashed(H: StarkHash, a: Shape, k: Bits, n: nat, sub: Shape, x: Shape, d: nat,
          nodes: NodeMap, nodes': NodeMap)
    requires Coherent(H, a, nodes) && Placed(a) && Reached(a, k, n) && n <= |k| && Slots(a) <= nodes.Keys
    requires sub == At(a, k, n) && InArena(sub) && SameHashes(Slots(a) - Slots(sub), nodes, nodes')
    requires InArena(x) && x.at.key in nodes' && BelowCoherent(H, x, nodes')
    requires if d == n then nodes'[x.at.key].hash.None?
             else KeepsTop(sub, x, nodes, nodes') && Follows(sub, k[n..]) && StepLen(sub) > 0 && d == n + StepLen(sub)
    ensures HashesStay(H, a, Graft(a, k, n, x), k, d, nodes, nodes')
  {
    hide Unmarked, HashesFit, Denote, HashesChange, Graft, At, Reached, Slots, Placed, SameHashes;
    GraftCoherentExactly(H, a, k, n, x, nodes, nodes');
    FitsExactly(H, a, k, n, x, nodes);
    if d != n {
      UnmarkedOn(a, k, n, nodes);
      AtCoherent(H, a, k, n, nodes);
      if HashesChange(H, Denote(a), Denote(Graft(a, k, n, x)), k, d) { ChangeAt(H, a, k, n, x, d); }
    }
    if Denote(Graft(a, k, n, x)) == Denote(a) {
      SameFits(H, a, k, n, x, nodes);
      AtCoherent(H, a, k, n, nodes);
    }
  }

  /** An edit below the top node, or one that keeps its hash, leaves the hash at the top as it was. */
  lemma {:induction false} EditKeepsTop(H: StarkHash, a: Shape, k: Bits, n: nat, sub: Shape, x: Shape, nodes: NodeMap,
          nodes': NodeMap)
    requires Placed(a) && Reached(a, k, n) && Slots(a) <= nodes.Keys
    requires sub == At(a, k, n) && InArena(sub) && InArena(x) && x.at == sub.at
             && SameHashes(Slots(a) - Slots(sub), nodes, nodes')
    requires n == 0 ==> KeepsTop(sub, x, nodes, nodes')
    ensures TopHash(H, Graft(a, k, n, x), nodes') == TopHash(H, a, nodes)
  {
    GraftWalk(a, 0, k, n, x);
    if n > 0 {
      TowardSlots(a, k);
      AtPlaced(Toward(a, k), k[StepLen(a)..], n - StepLen(a));
      assert a.at.key in Slots(a) && a.at.key !in Slots(sub);
    }
  }

  lemma {:induction false} UnmarkedFirst(a: Shape, k: Bits, n: nat, nodes: NodeMap)
    requires InArena(a) && Follows(a, k) && 0 < StepLen(a)
    ensures Unmarked(a, k, n, nodes) <==>
              n == 0 || (&& a.at.key in nodes && nodes[a.at.key].hash.None? && StepLen(a) <= n
                         && Unmarked(Toward(a, k), k[StepLen(a)..], n - StepLen(a), nodes))
  {
  }

  /** A subtree replaced by one that is marked alike leaves the whole marked alike. */
  lemma {:induction false} GraftMarks(a: Shape, k: Bits, n: nat, x: Shape, d: nat, nodes: NodeMap, nodes': NodeMap)
    requires Placed(a) && Reached(a, k, n) && n <= |k| && SameHashes(Slots(a) - Slots(At(a, k, n)), nodes, nodes')
    requires forall e: nat :: Unmarked(x, k[n..], e, nodes') <==> Unmarked(At(a, k, n), k[n..], e, nodes)
    ensures Unmarked(Graft(a, k, n, x), k, d, nodes') <==> Unmarked(a, k, d, nodes)
    decreases a
  {
    hide Reached, At, Graft, Redirect, SameHashes, Slots, Placed, Unmarked;
    if n == 0 {
      assert k[0..] == k;
      NoWalk(a, 0, k, x);
    } else {
      Unroll(a, 0, k, n, x);
      var e := StepLen(a);
      var c, r := Toward(a, k), k[e..];
      assert r[n - e..] == k[n..];
      RedirectStep(a, k, Graft(c, r, n - e, x));
      UnmarkedFirst(a, k, d, nodes);
      UnmarkedFirst(Graft(a, k, n, x), k, d, nodes');
      SameOwnHash(a, k, n, nodes, nodes');
      if d >= e { GraftMarks(c, r, n - e, x, d - e, nodes, nodes'); }
    }
  }

  lemma {:induction false} SameOwnHash(a: Shape, k: Bits, n: nat, nodes: NodeMap, nodes': NodeMap)
    requires Placed(a) && Reached(a, k, n) && n > 0 && SameHashes(Slots(a) - Slots(At(a, k, n)), nodes, nodes')
    ensures var c, r, e := Toward(a, k), k[StepLen(a)..], StepLen(a);
            Placed(c) && SameHashes(Slots(c) - Slots(At(c, r, n - e)), nodes, nodes')
    ensures a.at.key in nodes <==> a.at.key in nodes'
    ensures a.at.key in nodes ==> nodes[a.at.key].hash == nodes'[a.at.key].hash
  {
    TowardSlots(a, k);
    AtPlaced(Toward(a, k), k[StepLen(a)..], n - StepLen(a));
    assert a.at.key in Slots(a) && a.at.key !in Slots(At(a, k, n));
  }

  lemma {:induction false} GraftSelf(a: Shape, k: Bits, n: nat)
    requires Reached(a, k, n)
    ensures Graft(a, k, n, At(a, k, n)) == a
    decreases a
  {
    if n > 0 { GraftSelf(Toward(a, k), k[StepLen(a)..], n - StepLen(a)); }
  }
}
