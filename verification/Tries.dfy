/**
 The meaning of a Merkle-Patricia tree: an inductive trie, the key-value map it stands for, and
 insertion and deletion defined by structural recursion, with no arena, database or iteration.
 */
module Tries {
  import opened Wrappers
  import opened BitStrings
  import opened Felts

  datatype Trie = Leaf(value: Felt) | Branch(left: Trie, right: Trie) | Stem(path: Bits, child: Trie)

  /** A trie over keys of exactly h bits in its only legal form: stems are non-empty and maximal, no leaf is zero. */
  predicate Canonical(t: Trie, h: nat) {
    match t
    case Leaf(v) => h == 0 && v != 0
    case Branch(l, r) => h > 0 && Canonical(l, h - 1) && Canonical(r, h - 1)
    case Stem(p, c) => 0 < |p| <= h && !c.Stem? && Canonical(c, h - |p|)
  }

  function Lookup(t: Trie, k: Bits): Option<Felt> {
    match t
    case Leaf(v) => if k == [] then Some(v) else None
    case Branch(l, r) => if k == [] then None else Lookup(if k[0] then r else l, k[1..])
    case Stem(p, c) => if p <= k then Lookup(c, k[|p|..]) else None
  }

  function Find(root: Option<Trie>, k: Bits): Option<Felt> {
    if root.None? then None else Lookup(root.value, k)
  }

  predicate CanonicalRoot(root: Option<Trie>, h: nat) {
    root.Some? ==> Canonical(root.value, h)
  }

  // ----- insertion -----

  function MkStem(p: Bits, c: Trie): Trie {
    if p == [] then c else Stem(p, c)
  }

  /** The stem p-c and the new key k part after n common bits. */
  function SplitStem(p: Bits, c: Trie, k: Bits, v: Felt, n: nat): Trie
    requires n < |p| && n < |k|
  {
    var added := MkStem(k[n + 1..], Leaf(v));
    var kept := MkStem(p[n + 1..], c);
    MkStem(p[..n], if k[n] then Branch(kept, added) else Branch(added, kept))
  }

  /** t with k bound to v; a key of the wrong length changes nothing or is cut short. */
  function TrieInsert(t: Trie, k: Bits, v: Felt): Trie {
    match t
    case Leaf(_) => Leaf(v)
    case Branch(l, r) =>
      if k == [] then t
      else if k[0] then Branch(l, TrieInsert(r, k[1..], v))
      else Branch(TrieInsert(l, k[1..], v), r)
    case Stem(p, c) =>
      var n := CommonLen(p, k);
      if n == |p| then Stem(p, TrieInsert(c, k[n..], v))
      else if n == |k| then t
      else SplitStem(p, c, k, v, n)
  }

  function RootInsert(root: Option<Trie>, k: Bits, v: Felt): Trie {
    if root.None? then MkStem(k, Leaf(v)) else TrieInsert(root.value, k, v)
  }

  // ----- deletion -----

  /** A stem p above c, fused with c when c is a stem itself. */
  function Fuse(p: Bits, c: Trie): Trie {
    if c.Stem? then Stem(p + c.path, c.child) else Stem(p, c)
  }

  /** t without k; None when nothing is left. */
  function TrieDelete(t: Trie, k: Bits): Option<Trie> {
    match t
    case Leaf(_) => if k == [] then None else Some(t)
    case Branch(l, r) =>
      if k == [] then Some(t)
      else if k[0] then
        var r' := TrieDelete(r, k[1..]);
        Some(if r'.None? then Fuse([false], l) else Branch(l, r'.value))
      else
        var l' := TrieDelete(l, k[1..]);
        Some(if l'.None? then Fuse([true], r) else Branch(l'.value, r))
    case Stem(p, c) =>
      if !(p <= k) then Some(t) else
        var c' := TrieDelete(c, k[|p|..]);
        if c'.None? then None else Some(Fuse(p, c'.value))
  }

  // ----- laws -----

  lemma {:induction false} InsertCanonical(t: Trie, k: Bits, v: Felt)
    requires Canonical(t, |k|) && v != 0
    ensures Canonical(TrieInsert(t, k, v), |k|)
    ensures !t.Stem? ==> !TrieInsert(t, k, v).Stem?
  {
    match t
    case Leaf(_) =>
    case Branch(l, r) => InsertCanonical(if k[0] then r else l, k[1..], v);
    case Stem(p, c) =>
      var n := CommonLen(p, k);
      if n == |p| {
        InsertCanonical(c, k[n..], v);
      } else {
        assert Canonical(MkStem(p[n + 1..], c), |k| - n - 1);
        assert Canonical(MkStem(k[n + 1..], Leaf(v)), |k| - n - 1);
      }
  }

  lemma {:induction false} InsertLookup(t: Trie, k: Bits, v: Felt, q: Bits)
    requires Canonical(t, |k|) && |q| == |k|
    ensures Lookup(TrieInsert(t, k, v), q) == if q == k then Some(v) else Lookup(t, q)
  {
    match t
    case Leaf(_) =>
    case Branch(l, r) =>
      assert q == [q[0]] + q[1..] && k == [k[0]] + k[1..];
      InsertLookup(if k[0] then r else l, k[1..], v, q[1..]);
    case Stem(p, c) =>
      var n := CommonLen(p, k);
      if n == |p| {
        assert k == p + k[n..];
        if p <= q {
          assert q == p + q[n..];
          InsertLookup(c, k[n..], v, q[n..]);
        }
      } else {
        SplitLookup(p, c, k, v, n, q);
      }
  }

  lemma {:induction false} MkStemLookup(p: Bits, c: Trie, q: Bits)
    ensures Lookup(MkStem(p, c), q) == if p <= q then Lookup(c, q[|p|..]) else None
  {
    if p == [] { assert q[|p|..] == q; }
  }

  lemma {:induction false} SplitLookup(p: Bits, c: Trie, k: Bits, v: Felt, n: nat, q: Bits)
    requires n < |p| && n < |k| && p[..n] == k[..n] && p[n] != k[n] && |q| == |k|
    ensures Lookup(SplitStem(p, c, k, v, n), q) == if q == k then Some(v) else Lookup(Stem(p, c), q)
  {
    var added, kept := MkStem(k[n + 1..], Leaf(v)), MkStem(p[n + 1..], c);
    var fork := if k[n] then Branch(kept, added) else Branch(added, kept);
    MkStemLookup(p[..n], fork, q);
    if p[..n] <= q {
      assert q == p[..n] + [q[n]] + q[n + 1..];
      assert k == p[..n] + [k[n]] + k[n + 1..];
      assert p == p[..n] + [p[n]] + p[n + 1..];
      assert q[n..][0] == q[n] && q[n..][1..] == q[n + 1..];
      MkStemLookup(k[n + 1..], Leaf(v), q[n + 1..]);
      MkStemLookup(p[n + 1..], c, q[n + 1..]);
      if q[n] != k[n] && p[n + 1..] <= q[n + 1..] {
        assert p <= q && q[n + 1..][|p[n + 1..]|..] == q[|p|..];
      }
    } else {
      assert k == p[..n] + k[n..];
    }
  }

  lemma {:induction false} DeleteCanonical(t: Trie, k: Bits)
    requires Canonical(t, |k|)
    ensures CanonicalRoot(TrieDelete(t, k), |k|)
    ensures t.Branch? ==> TrieDelete(t, k).Some?
  {
    match t
    case Leaf(_) =>
    case Branch(l, r) => DeleteCanonical(if k[0] then r else l, k[1..]);
    case Stem(p, c) => if p <= k { DeleteCanonical(c, k[|p|..]); }
  }

  lemma {:induction false} FuseLookup(p: Bits, c: Trie, q: Bits)
    ensures Lookup(Fuse(p, c), q) == if p <= q then Lookup(c, q[|p|..]) else None
  {
    if c.Stem? {
      if p <= q {
        assert q == p + q[|p|..];
        assert p + c.path <= q <==> c.path <= q[|p|..];
        if c.path <= q[|p|..] { assert q[|p|..][|c.path|..] == q[|p + c.path|..]; }
      }
    }
  }

  lemma {:induction false} DeleteLookup(t: Trie, k: Bits, q: Bits)
    requires Canonical(t, |k|) && |q| == |k|
    ensures Find(TrieDelete(t, k), q) == if q == k then None else Lookup(t, q)
  {
    match t
    case Leaf(_) =>
    case Branch(l, r) =>
      assert q == [q[0]] + q[1..] && k == [k[0]] + k[1..];
      DeleteLookup(if k[0] then r else l, k[1..], q[1..]);
      FuseLookup([!k[0]], if k[0] then l else r, q);
    case Stem(p, c) =>
      if p <= k {
        assert k == p + k[|p|..];
        if p <= q {
          assert q == p + q[|p|..];
          DeleteLookup(c, k[|p|..], q[|p|..]);
        }
        if TrieDelete(c, k[|p|..]).Some? { FuseLookup(p, TrieDelete(c, k[|p|..]).value, q); }
      }
  }

  // ----- a canonical trie is determined by its map -----

  /** Some key of the trie; every canonical trie has one. */
  function SomeKey(t: Trie): Bits {
    match t
    case Leaf(_) => []
    case Branch(l, _) => [false] + SomeKey(l)
    case Stem(p, c) => p + SomeKey(c)
  }

  lemma {:induction false} SomeKeyPresent(t: Trie, h: nat)
    requires Canonical(t, h)
    ensures |SomeKey(t)| == h && Lookup(t, SomeKey(t)).Some?
  {
    match t
    case Leaf(_) =>
    case Branch(l, _) =>
      SomeKeyPresent(l, h - 1);
      assert SomeKey(t)[1..] == SomeKey(l);
    case Stem(p, c) =>
      SomeKeyPresent(c, h - |p|);
      assert SomeKey(t)[|p|..] == SomeKey(c);
  }

  ghost predicate SameMap(t: Trie, u: Trie, h: nat) {
    forall k: Bits :: |k| == h ==> Lookup(t, k) == Lookup(u, k)
  }

  lemma {:induction false} SameMapChild(t: Trie, u: Trie, h: nat, b: bool)
    requires t.Branch? && u.Branch? && h > 0 && SameMap(t, u, h)
    ensures SameMap(if b then t.right else t.left, if b then u.right else u.left, h - 1)
  {
    forall k: Bits | |k| == h - 1
      ensures Lookup(if b then t.right else t.left, k) == Lookup(if b then u.right else u.left, k)
    {
      assert ([b] + k)[1..] == k;
      assert Lookup(t, [b] + k) == Lookup(u, [b] + k);
    }
  }

  lemma {:induction false} SameMapStem(p: Bits, c: Trie, d: Trie, h: nat)
    requires |p| <= h && SameMap(Stem(p, c), Stem(p, d), h)
    ensures SameMap(c, d, h - |p|)
  {
    forall k: Bits | |k| == h - |p| ensures Lookup(c, k) == Lookup(d, k) {
      assert (p + k)[|p|..] == k;
      assert Lookup(Stem(p, c), p + k) == Lookup(Stem(p, d), p + k);
    }
  }

  /** A stem forces the first bit of every key; a branch has keys on both sides. */
  lemma {:induction false} BranchIsNotStem(l: Trie, r: Trie, p: Bits, c: Trie, h: nat)
    requires Canonical(Branch(l, r), h) && Canonical(Stem(p, c), h)
    ensures !SameMap(Branch(l, r), Stem(p, c), h)
  {
    var b := !p[0];
    var child := if b then r else l;
    SomeKeyPresent(child, h - 1);
    var k := [b] + SomeKey(child);
    assert k[1..] == SomeKey(child);
    assert Lookup(Branch(l, r), k) != Lookup(Stem(p, c), k);
  }

  /** A stem maximal at its branch has a key that leaves every longer stem. */
  lemma {:induction false} LongerStemDiffers(p: Bits, l: Trie, r: Trie, q: Bits, d: Trie, h: nat)
    requires Canonical(Stem(p, Branch(l, r)), h) && |p| < |q|
    ensures !SameMap(Stem(p, Branch(l, r)), Stem(q, d), h)
  {
    var b := !q[|p|];
    var side := if b then r else l;
    SomeKeyPresent(side, h - |p| - 1);
    var k := p + ([b] + SomeKey(side));
    assert k[|p|..] == [b] + SomeKey(side) && ([b] + SomeKey(side))[1..] == SomeKey(side);
    assert k[|p|] == b;
    assert Lookup(Stem(p, Branch(l, r)), k) != Lookup(Stem(q, d), k);
  }

  /** Two maximal stems over the same map have the same path. */
  lemma {:induction false} StemPathsAgree(t: Trie, u: Trie, h: nat)
    requires t.Stem? && u.Stem? && Canonical(t, h) && Canonical(u, h) && SameMap(t, u, h)
    ensures t.path == u.path
  {
    SomeKeyPresent(u.child, h - |u.path|);
    var k := u.path + SomeKey(u.child);
    assert k[|u.path|..] == SomeKey(u.child);
    assert Lookup(u, k) == Lookup(t, k);
    if |u.path| < |t.path| && u.child.Branch? {
      LongerStemDiffers(u.path, u.child.left, u.child.right, t.path, t.child, h);
    } else if |t.path| < |u.path| && t.child.Branch? {
      LongerStemDiffers(t.path, t.child.left, t.child.right, u.path, u.child, h);
    }
  }

  /** A canonical trie is uniquely determined by the key-value map it stands for. */
  lemma {:induction false} CanonicalUnique(t: Trie, u: Trie, h: nat)
    requires Canonical(t, h) && Canonical(u, h) && SameMap(t, u, h)
    ensures t == u
  {
    match (t, u)
    case (Leaf(v), Leaf(w)) => assert Lookup(t, []) == Lookup(u, []);
    case (Branch(l, r), Branch(l', r')) =>
      SameMapChild(t, u, h, false);
      SameMapChild(t, u, h, true);
      CanonicalUnique(l, l', h - 1);
      CanonicalUnique(r, r', h - 1);
    case (Stem(p, c), Stem(q, d)) =>
      StemPathsAgree(t, u, h);
      SameMapStem(p, c, d, h);
      CanonicalUnique(c, d, h - |p|);
    case (Branch(l, r), Stem(p, c)) => BranchIsNotStem(l, r, p, c, h);
    case (Stem(p, c), Branch(l, r)) => BranchIsNotStem(l, r, p, c, h);
    case _ =>
  }

  lemma {:induction false} RootUnique(a: Option<Trie>, b: Option<Trie>, h: nat)
    requires CanonicalRoot(a, h) && CanonicalRoot(b, h)
    requires forall k: Bits :: |k| == h ==> Find(a, k) == Find(b, k)
    ensures a == b
  {
    if a.Some? { SomeKeyPresent(a.value, h); }
    if b.Some? { SomeKeyPresent(b.value, h); }
    var k := if a.Some? then SomeKey(a.value) else if b.Some? then SomeKey(b.value) else seq(h, _ => false);
    assert Find(a, k) == Find(b, k);
    if a.Some? && b.Some? {
      forall k: Bits | |k| == h ensures Lookup(a.value, k) == Lookup(b.value, k) {
        assert Find(a, k) == Find(b, k);
      }
      CanonicalUnique(a.value, b.value, h);
    }
  }

  lemma {:induction false} InsertRootLaws(root: Option<Trie>, k: Bits, v: Felt)
    requires CanonicalRoot(root, |k|) && v != 0
    ensures Canonical(RootInsert(root, k, v), |k|)
    ensures forall q: Bits :: |q| == |k| ==>
              Lookup(RootInsert(root, k, v), q) == if q == k then Some(v) else Find(root, q)
  {
    forall q: Bits | |q| == |k|
      ensures Lookup(RootInsert(root, k, v), q) == if q == k then Some(v) else Find(root, q)
    {
      if root.Some? { InsertLookup(root.value, k, v, q); } else { MkStemLookup(k, Leaf(v), q); }
    }
    if root.Some? { InsertCanonical(root.value, k, v); }
  }

  lemma {:induction false} DeleteLaws(t: Trie, k: Bits)
    requires Canonical(t, |k|)
    ensures CanonicalRoot(TrieDelete(t, k), |k|)
    ensures forall q: Bits :: |q| == |k| ==> Find(TrieDelete(t, k), q) == if q == k then None else Lookup(t, q)
  {
    DeleteCanonical(t, k);
    forall q: Bits | |q| == |k| ensures Find(TrieDelete(t, k), q) == if q == k then None else Lookup(t, q) {
      DeleteLookup(t, k, q);
    }
  }

  /** Splitting and collapsing undo each other: inserting an absent key and deleting it gives back the same trie. */
  lemma {:induction false} InsertThenDelete(root: Option<Trie>, k: Bits, v: Felt)
    requires CanonicalRoot(root, |k|) && v != 0 && Find(root, k).None?
    ensures var t := RootInsert(root, k, v); Canonical(t, |k|) && Lookup(t, k).Some? && TrieDelete(t, k) == root
  {
    InsertRootLaws(root, k, v);
    DeleteLaws(RootInsert(root, k, v), k);
    RootUnique(TrieDelete(RootInsert(root, k, v), k), root, |k|);
  }

  /** Deleting a present key and inserting it again with its value gives back the same trie. */
  lemma {:induction false} DeleteThenInsert(t: Trie, k: Bits)
    requires Canonical(t, |k|) && Lookup(t, k).Some?
    ensures Lookup(t, k).value != 0 && RootInsert(TrieDelete(t, k), k, Lookup(t, k).value) == t
  {
    var v := Lookup(t, k).value;
    LeafNonZero(t, k);
    DeleteLaws(t, k);
    InsertRootLaws(TrieDelete(t, k), k, v);
    CanonicalUnique(RootInsert(TrieDelete(t, k), k, v), t, |k|);
  }

  lemma {:induction false} LeafNonZero(t: Trie, k: Bits)
    requires Canonical(t, |k|)
    ensures Lookup(t, k) != Some(0)
  {
    match t
    case Leaf(_) =>
    case Branch(l, r) => LeafNonZero(if k[0] then r else l, k[1..]);
    case Stem(p, c) => if p <= k { LeafNonZero(c, k[|p|..]); }
  }

  // ----- hashes -----

  function Hash(H: StarkHash, t: Trie): Felt {
    match t
    case Leaf(v) => v
    case Branch(l, r) => HashBinaryNode(H, Hash(H, l), Hash(H, r))
    case Stem(p, c) => HashEdgeNode(H, p, Hash(H, c))
  }

  /** The root hash of an empty tree is zero. */
  function RootHash(H: StarkHash, root: Option<Trie>): Felt {
    if root.None? then 0 else Hash(H, root.value)
  }

  // ----- node positions -----

  /** A non-leaf node of the trie sits at position q. */
  predicate NodeAt(t: Trie, q: Bits) {
    match t
    case Leaf(_) => false
    case Branch(l, r) => q == [] || NodeAt(if q[0] then r else l, q[1..])
    case Stem(p, c) => q == [] || (p <= q && NodeAt(c, q[|p|..]))
  }

  lemma {:induction false} NodeAtShort(t: Trie, h: nat, q: Bits)
    requires Canonical(t, h) && NodeAt(t, q)
    ensures |q| < h
  {
    if q != [] {
      match t
      case Branch(l, r) => NodeAtShort(if q[0] then r else l, h - 1, q[1..]);
      case Stem(p, c) => NodeAtShort(c, h - |p|, q[|p|..]);
    }
  }

  lemma {:induction false} MkStemNodeAt(p: Bits, c: Trie, q: Bits)
    requires p <= q && NodeAt(c, q[|p|..])
    ensures NodeAt(MkStem(p, c), q)
  {
    if p == [] { assert q[|p|..] == q; }
  }

  /** Insertion moves no node: every old position is still one. */
  lemma {:induction false} InsertKeepsNodes(t: Trie, k: Bits, v: Felt, q: Bits)
    requires NodeAt(t, q)
    ensures NodeAt(TrieInsert(t, k, v), q)
  {
    match t
    case Branch(l, r) =>
      if q != [] && k != [] && q[0] == k[0] { InsertKeepsNodes(if k[0] then r else l, k[1..], v, q[1..]); }
    case Stem(p, c) =>
      var n := CommonLen(p, k);
      if n == |p| {
        if q != [] { InsertKeepsNodes(c, k[n..], v, q[n..]); }
      } else if n < |k| && q != [] {
        var kept := MkStem(p[n + 1..], c);
        assert q[n] == p[n] && q[n + 1..][|p[n + 1..]|..] == q[|p|..];
        MkStemNodeAt(p[n + 1..], c, q[n + 1..]);
        var added := MkStem(k[n + 1..], Leaf(v));
        var fork := if k[n] then Branch(kept, added) else Branch(added, kept);
        assert q[n..][1..] == q[n + 1..] && q[n..][0] == p[n];
        assert NodeAt(fork, q[n..]);
        MkStemNodeAt(p[..n], fork, q);
      }
  }

  // ----- walking along a key -----

  predicate Continues(t: Trie, k: Bits) {
    match t
    case Leaf(_) => false
    case Branch(_, _) => k != []
    case Stem(p, _) => p != [] && p <= k
  }

  function Next(t: Trie, k: Bits): Trie
    requires Continues(t, k)
  {
    if t.Stem? then t.child else if k[0] then t.right else t.left
  }

  function NextLen(t: Trie): nat {
    if t.Stem? then |t.path| else 1
  }

  /** The first n bits of k lead to a node. */
  predicate Boundary(t: Trie, k: Bits, n: nat)
    decreases t
  {
    n == 0 || (Continues(t, k) && NextLen(t) <= n && Boundary(Next(t, k), k[NextLen(t)..], n - NextLen(t)))
  }

  /** The subtrie at that node. */
  function Sub(t: Trie, k: Bits, n: nat): Trie
    requires Boundary(t, k, n)
    decreases t
  {
    if n == 0 then t else Sub(Next(t, k), k[NextLen(t)..], n - NextLen(t))
  }

  lemma {:induction false} SubLookup(t: Trie, k: Bits, n: nat)
    requires Boundary(t, k, n)
    ensures n <= |k| && Lookup(Sub(t, k, n), k[n..]) == Lookup(t, k)
    decreases t
  {
    if n == 0 {
      assert k[0..] == k;
    } else {
      var e := NextLen(t);
      assert e <= |k| && Lookup(Next(t, k), k[e..]) == Lookup(t, k);
      hide Lookup, Continues, Next, NextLen;
      SubLookup(Next(t, k), k[e..], n - e);
      assert k[e..][n - e..] == k[n..];
    }
  }

  lemma {:induction false} BoundaryFirst(t: Trie, k: Bits, n: nat)
    requires n > 0
    ensures Boundary(t, k, n) <==>
              && Continues(t, k) && NextLen(t) <= n && NextLen(t) <= |k|
              && Boundary(Next(t, k), k[NextLen(t)..], n - NextLen(t))
    ensures Boundary(t, k, n) ==> NextLen(t) > 0 && Sub(t, k, n) == Sub(Next(t, k), k[NextLen(t)..], n - NextLen(t))
  {
  }

  /** The only nodes beyond a node are reached through its next one. */
  lemma {:induction false} BoundaryGap(t: Trie, k: Bits, n: nat, m: nat)
    requires Boundary(t, k, n) && Boundary(t, k, m) && n < m
    ensures n <= |k| && Continues(Sub(t, k, n), k[n..]) && n + NextLen(Sub(t, k, n)) <= m
    ensures Boundary(t, k, n + NextLen(Sub(t, k, n)))
    ensures Sub(t, k, n + NextLen(Sub(t, k, n))) == Next(Sub(t, k, n), k[n..])
    decreases m
  {
    BoundaryFirst(t, k, m);
    if n == 0 {
      assert k[0..] == k;
      BoundaryFirst(t, k, NextLen(t));
      assert k[NextLen(t)..][0..] == k[NextLen(t)..];
    } else {
      hide Continues, Next, NextLen, Boundary, Sub;
      BoundaryFirst(t, k, n);
      var e := NextLen(t);
      var c, q := Next(t, k), k[e..];
      BoundaryGap(c, q, n - e, m - e);
      assert q[n - e..] == k[n..];
      BoundaryFirst(t, k, n + NextLen(Sub(c, q, n - e)));
    }
  }

  /** A key that starts as k does is in the subtrie that k goes on to. */
  lemma {:induction false} SameStart(t: Trie, k: Bits, q: Bits)
    requires Continues(t, k) && NextLen(t) <= |k| && |q| == |k| && q[..NextLen(t)] == k[..NextLen(t)]
    ensures Lookup(t, q) == Lookup(Next(t, k), q[NextLen(t)..])
  {
    if t.Branch? { assert q[0] == q[..1][0] == k[..1][0] == k[0]; }
  }

  // ----- where a key leaves the trie -----

  ghost predicate Present(t: Trie, k: Bits, n: nat) {
    |k| == n && Lookup(t, k).Some?
  }

  ghost predicate SomeFrom(t: Trie, n: nat, start: Bits) {
    exists q: Bits :: Present(t, q, n) && start <= q
  }

  /** The tip of a seek for k: no present key shares more bits with k than the tip does, those that share as many all
      go on from the tip, some do, and unless the tip is a whole key they part there. */
  ghost predicate Tip(t: Trie, k: Bits, tip: Bits) {
    && |tip| <= |k| && SomeFrom(t, |k|, tip)
    && (forall q: Bits :: Present(t, q, |k|) ==>
          CommonLen(q, k) <= CommonLen(tip, k) && (CommonLen(q, k) == CommonLen(tip, k) ==> tip <= q))
    && (|tip| < |k| ==> SomeFrom(t, |k|, tip + [false]) && SomeFrom(t, |k|, tip + [true]))
  }

  /** The tip is the key itself exactly when the key is present. */
  lemma {:induction false} TipPresent(t: Trie, k: Bits, tip: Bits)
    requires Tip(t, k, tip)
    ensures Lookup(t, k).Some? <==> tip == k
  {
    CommonLenAfter(k, [], []);
    assert k + [] == k;
    if tip == k {
      var q: Bits :| Present(t, q, |k|) && tip <= q;
      assert q == k;
    }
    if Lookup(t, k).Some? {
      assert Present(t, k, |k|);
      assert CommonLen(tip, k) == |k|;
      assert tip == tip[..|k|] == k[..|k|] == k;
    }
  }

  lemma {:induction false} PresentAbove(t: Trie, k: Bits, q: Bits)
    requires Continues(t, k) && NextLen(t) <= |k| && Present(Next(t, k), q, |k| - NextLen(t))
    ensures Present(t, k[..NextLen(t)] + q, |k|)
  {
    hide Continues, Next, NextLen, Lookup;
    var e := NextLen(t);
    assert (k[..e] + q)[..e] == k[..e] && (k[..e] + q)[e..] == q;
    SameStart(t, k, k[..e] + q);
  }

  /** A present key that shares the first step with k is a present key of the subtrie after the same bits. */
  lemma {:induction false} PresentBelow(t: Trie, k: Bits, q: Bits)
    requires Continues(t, k) && NextLen(t) <= |k| && Present(t, q, |k|) && CommonLen(q, k) >= NextLen(t)
    ensures var e := NextLen(t);
            && Present(Next(t, k), q[e..], |k| - e) && q == k[..e] + q[e..]
            && CommonLen(q, k) == e + CommonLen(q[e..], k[e..])
  {
    hide Continues, Next, NextLen, Lookup;
    var e, n := NextLen(t), CommonLen(q, k);
    assert q[..e] == q[..n][..e] == k[..n][..e] == k[..e];
    SameStart(t, k, q);
    assert k[..e] + k[e..] == k && k[..e] + q[e..] == q;
    CommonLenAfter(k[..e], q[e..], k[e..]);
  }

  lemma {:induction false} TipBest(t: Trie, k: Bits, tip: Bits, q: Bits)
    requires Continues(t, k) && NextLen(t) <= |k| && Tip(Next(t, k), k[NextLen(t)..], tip) && Present(t, q, |k|)
    ensures CommonLen(q, k) <= CommonLen(k[..NextLen(t)] + tip, k)
    ensures CommonLen(q, k) == CommonLen(k[..NextLen(t)] + tip, k) ==> k[..NextLen(t)] + tip <= q
  {
    hide Continues, Next, NextLen, Present, CommonLen;
    var e := NextLen(t);
    assert k[..e] + k[e..] == k;
    CommonLenAfter(k[..e], tip, k[e..]);
    if CommonLen(q, k) >= e { PresentBelow(t, k, q); }
  }

  /** Keys of the subtrie with a given start are keys of the trie with the first step in front of it. */
  lemma {:induction false} StartAbove(t: Trie, k: Bits, start: Bits)
    requires Continues(t, k) && NextLen(t) <= |k|
    requires SomeFrom(Next(t, k), |k| - NextLen(t), start)
    ensures SomeFrom(t, |k|, k[..NextLen(t)] + start)
  {
    hide Continues, Next, NextLen, Present;
    var q: Bits :| Present(Next(t, k), q, |k| - NextLen(t)) && start <= q;
    PresentAbove(t, k, q);
    assert k[..NextLen(t)] + start <= k[..NextLen(t)] + q;
  }

  lemma {:induction false} TipBelow(t: Trie, k: Bits, tip: Bits)
    requires Continues(t, k) && NextLen(t) <= |k| && Tip(Next(t, k), k[NextLen(t)..], tip)
    ensures Tip(t, k, k[..NextLen(t)] + tip)
  {
    hide Continues, Next, NextLen, Present, CommonLen;
    var start := k[..NextLen(t)];
    StartAbove(t, k, tip);
    forall q: Bits | Present(t, q, |k|)
      ensures CommonLen(q, k) <= CommonLen(start + tip, k)
      ensures CommonLen(q, k) == CommonLen(start + tip, k) ==> start + tip <= q
    {
      TipBest(t, k, tip, q);
    }
    if |start + tip| < |k| {
      forall b: bool ensures SomeFrom(t, |k|, start + tip + [b]) {
        StartAbove(t, k, tip + [b]);
        assert start + (tip + [b]) == start + tip + [b];
      }
    }
  }

  /** A stem that the key leaves. */
  lemma {:induction false} StemTip(t: Trie, k: Bits)
    requires Canonical(t, |k|) && t.Stem? && !(t.path <= k)
    ensures Tip(t, k, t.path)
  {
    var p, c := t.path, t.child;
    SomeKeyPresent(c, |k| - |p|);
    assert (p + SomeKey(c))[|p|..] == SomeKey(c);
    assert Present(t, p + SomeKey(c), |k|);
    forall q: Bits | Present(t, q, |k|) ensures p <= q && CommonLen(q, k) == CommonLen(p, k) {
      LeavesAlike(p, q, k);
    }
    if |p| < |k| {
      forall b: bool ensures SomeFrom(t, |k|, p + [b]) {
        var side := if b then c.right else c.left;
        SomeKeyPresent(side, |k| - |p| - 1);
        var q := p + ([b] + SomeKey(side));
        assert q[|p|..] == [b] + SomeKey(side) && ([b] + SomeKey(side))[1..] == SomeKey(side);
        assert Present(t, q, |k|) && p + [b] <= q;
      }
    }
  }

  /** Two strings with a common start that is not one of k's part from k together. */
  lemma {:induction false} LeavesAlike(p: Bits, q: Bits, k: Bits)
    requires p <= q && !(p <= k) && |p| <= |k|
    ensures CommonLen(q, k) == CommonLen(p, k)
  {
    if p[0] == k[0] {
      assert p == [p[0]] + p[1..] && k == [k[0]] + k[1..];
      LeavesAlike(p[1..], q[1..], k[1..]);
    }
  }

  /** A present key is its own tip. */
  lemma {:induction false} OwnTip(t: Trie, k: Bits)
    requires Lookup(t, k).Some?
    ensures Tip(t, k, k)
  {
    CommonLenAfter(k, [], []);
    assert k + [] == k;
    assert Present(t, k, |k|);
    forall q: Bits | Present(t, q, |k|) && CommonLen(q, k) == |k| ensures k <= q {
      assert q[..|k|] == k[..|k|];
    }
  }

  // ----- nodes an edit passes -----

  /** Every node of t that the key passes before bit n has another hash in u, which has the same nodes there. */
  predicate HashesChange(H: StarkHash, t: Trie, u: Trie, k: Bits, n: nat)
    decreases t
  {
    n == 0 ||
    (&& Hash(H, t) != Hash(H, u)
     && (NextLen(t) < n ==>
           && Continues(t, k) && Continues(u, k) && NextLen(u) == NextLen(t)
           && HashesChange(H, Next(t, k), Next(u, k), k[NextLen(t)..], n - NextLen(t))))
  }

  /** How many bits of the key lie below nodes that it passes: all of them for a present key, and those above
      the stem it leaves for an absent one. */
  function PassedBits(t: Trie, k: Bits): nat
    decreases t
  {
    if Continues(t, k) then NextLen(t) + PassedBits(Next(t, k), k[NextLen(t)..]) else 0
  }

  /** Where the last branch on a present key's way is; zero if there is none. */
  function LastBranch(t: Trie, k: Bits): nat
    decreases t
  {
    if !Continues(t, k) || TrieDelete(Next(t, k), k[NextLen(t)..]).None? then 0
    else NextLen(t) + LastBranch(Next(t, k), k[NextLen(t)..])
  }
}
