/** What the root hash of a trie is, without its nodes: the commitment to a key-value map, and two laws that tell the
    arguments of the node hashes apart. */
module HashLaws {
  import opened Wrappers
  import opened BitStrings
  import opened Felts
  import opened PathCodec
  import opened Tries
  import opened EdgeHashing

  // ----- the commitment to a map -----

  /** A node of the binary tree with all paths written out: nothing below, or a value a number of bits further down. */
  datatype Commitment = Nothing | Triple(length: nat, path: nat, value: Felt) {
    function Hash(H: StarkHash): Felt {
      match this
      case Nothing => 0
      case Triple(length, path, value) =>
        if length == 0 then value else ((H(value, (path % PRIME) as Felt) as int + length) % PRIME) as Felt
    }
  }

  /** The commitment to the part of the map below a prefix, for keys of so many further bits, as Starknet defines it:
      two commitments are hashed together, left first, and one next to nothing gets a bit longer, at the high end. */
  ghost function Commit(H: StarkHash, m: Bits -> Option<Felt>, p: Bits, height: nat): Commitment
    decreases height
  {
    if height == 0 then (if m(p).Some? then Triple(0, 0, m(p).value) else Nothing) else
      match (Commit(H, m, p + [false], height - 1), Commit(H, m, p + [true], height - 1))
      case (Nothing, Nothing) => Nothing
      case (Nothing, Triple(length, path, value)) => Triple(length + 1, path + Pow2(length), value)
      case (Triple(length, path, value), Nothing) => Triple(length + 1, path, value)
      case (left, right) => Triple(0, 0, H(left.Hash(H), right.Hash(H)))
  }

  lemma {:induction false} CommitNothing(H: StarkHash, m: Bits -> Option<Felt>, p: Bits, height: nat)
    requires forall q: Bits :: |q| == height ==> m(p + q) == None
    ensures Commit(H, m, p, height) == Nothing
    decreases height
  {
    if height == 0 {
      assert p + [] == p;
    } else {
      forall b: bool, q: Bits | |q| == height - 1 ensures m(p + [b] + q) == None {
        assert p + [b] + q == p + ([b] + q);
      }
      CommitNothing(H, m, p + [false], height - 1);
      CommitNothing(H, m, p + [true], height - 1);
    }
  }

  /** The map below the prefix is the subtrie's. */
  ghost predicate Agrees(m: Bits -> Option<Felt>, p: Bits, u: Trie, height: nat) {
    forall q: Bits :: |q| == height ==> m(p + q) == Lookup(u, q)
  }

  ghost predicate Commits(H: StarkHash, c: Commitment, u: Trie) {
    match u
    case Stem(q, d) => c == Triple(|q|, Number(q), Tries.Hash(H, d))
    case _ => c == Triple(0, 0, Tries.Hash(H, u))
  }

  lemma {:induction false} CommitsHash(H: StarkHash, c: Commitment, u: Trie)
    requires Commits(H, c, u) && (u.Stem? ==> u.path != [])
    ensures c.Hash(H) == Tries.Hash(H, u)
  {
    if u.Stem? { PathFeltNumber(u.path); }
  }

  lemma {:induction false} AgreesBelow(m: Bits -> Option<Felt>, p: Bits, u: Trie, height: nat, b: bool)
    requires Agrees(m, p, u, height) && height > 0
    ensures u.Branch? ==> Agrees(m, p + [b], if b then u.right else u.left, height - 1)
    ensures u.Stem? && u.path != [] && u.path[0] == b ==> Agrees(m, p + [b], MkStem(u.path[1..], u.child), height - 1)
    ensures u.Stem? && u.path != [] && u.path[0] != b ==>
              forall q: Bits :: |q| == height - 1 ==> m(p + [b] + q) == None
  {
    forall q: Bits | |q| == height - 1
      ensures m(p + [b] + q) == Lookup(u, [b] + q) && ([b] + q)[1..] == q
      ensures u.Stem? && u.path != [] ==>
                Lookup(u, [b] + q) == if u.path[0] == b then Lookup(MkStem(u.path[1..], u.child), q) else None
    {
      assert p + [b] + q == p + ([b] + q);
      assert ([b] + q)[1..] == q;
      if u.Stem? && u.path != [] && u.path[0] == b { StemLookupOn(u.path, u.child, b, q); }
    }
  }

  lemma {:induction false} StemLookupOn(path: Bits, c: Trie, b: bool, q: Bits)
    requires path != [] && path[0] == b
    ensures Lookup(Stem(path, c), [b] + q) == Lookup(MkStem(path[1..], c), q)
  {
    var k := [b] + q;
    assert path == [b] + path[1..] && k[1..] == q;
    if path <= k {
      assert path[1..] == k[1..|path|] == q[..|path| - 1];
      assert k[|path|..] == q[|path| - 1..];
      if path[1..] == [] { assert q[0..] == q; }
    }
    if path[1..] <= q { assert k[..|path|] == [b] + q[..|path| - 1]; }
  }

  lemma {:induction false} NumberHigh(b: bool, q: Bits)
    ensures Number([b] + q) == Number(q) + if b then Pow2(|q|) else 0
  {
    var bits := [b] + q;
    NumberSplit(bits, |q|);
    assert bits[..|bits| - |q|] == [b] && bits[|bits| - |q|..] == q;
    assert Number([b]) == (if b then 1 else 0) by { assert [b][..0] == []; }
  }

  /** The commitment to a trie's map, prefix by prefix, is what the trie's nodes hash to. */
  lemma {:induction false} CommitTrie(H: StarkHash, m: Bits -> Option<Felt>, p: Bits, u: Trie, height: nat)
    requires Canonical(u, height) && Agrees(m, p, u, height)
    ensures Commits(H, Commit(H, m, p, height), u)
    decreases height
  {
    hide Agrees, PathFelt, Number;
    match u
    case Leaf(v) =>
      AgreesLeaf(m, p, v);
    case Branch(l, r) =>
      AgreesBelow(m, p, u, height, false);
      AgreesBelow(m, p, u, height, true);
      CommitTrie(H, m, p + [false], l, height - 1);
      CommitTrie(H, m, p + [true], r, height - 1);
      CommitsHash(H, Commit(H, m, p + [false], height - 1), l);
      CommitsHash(H, Commit(H, m, p + [true], height - 1), r);
    case Stem(q, c) =>
      var b, rest := q[0], q[1..];
      AgreesBelow(m, p, u, height, b);
      AgreesBelow(m, p, u, height, !b);
      CommitNothing(H, m, p + [!b], height - 1);
      CommitTrie(H, m, p + [b], MkStem(rest, c), height - 1);
      NumberHigh(b, rest);
      NumberNone();
      assert q == [b] + rest;
  }

  lemma {:induction false} NumberNone()
    ensures Number([]) == 0
  {
  }

  lemma {:induction false} AgreesLeaf(m: Bits -> Option<Felt>, p: Bits, v: Felt)
    requires Agrees(m, p, Leaf(v), 0)
    ensures m(p) == Some(v)
  {
    assert p + [] == p;
  }

  /** For every hash: the root hash is the commitment to the trie's key-value map, zero for the empty one. */
  lemma {:induction false} RootHashIsCommitment(H: StarkHash, root: Option<Trie>, m: Bits -> Option<Felt>, height: nat)
    requires CanonicalRoot(root, height) && forall k: Bits :: |k| == height ==> m(k) == Find(root, k)
    ensures RootHash(H, root) == Commit(H, m, [], height).Hash(H)
  {
    hide Tries.Hash, Canonical;
    assert forall q: Bits :: [] + q == q;
    if root.None? {
      CommitNothing(H, m, [], height);
    } else {
      CommitTrie(H, m, [], root.value, height);
      StemNotEmpty(root.value, height);
      CommitsHash(H, Commit(H, m, [], height), root.value);
    }
  }

  lemma {:induction false} StemNotEmpty(t: Trie, height: nat)
    requires Canonical(t, height)
    ensures t.Stem? ==> t.path != []
  {
  }

  // ----- edges -----

  lemma {:induction false} PowAdd(m: nat, n: nat)
    ensures Pow2(m + n) == Pow2(m) * Pow2(n)
  {
    if m > 0 {
      PowAdd(m - 1, n);
      assert Pow2(m + n) == 2 * Pow2(m + n - 1) && Pow2(m) == 2 * Pow2(m - 1);
      hide Pow2;
      assert m + n - 1 == m - 1 + n;
      DoubleProduct(Pow2(m - 1), Pow2(n));
    }
  }

  lemma {:induction false} SmallPowers()
    ensures Pow2(3) == 8 && Pow2(8) == 256
  {
  }

  lemma {:induction false} Powers()
    ensures Pow2(59) == 0x800_0000_0000_0000 && Pow2(64) == 0x1_0000_0000_0000_0000
  {
    SmallPowers();
    hide Pow2;
    PowAdd(8, 8);
    PowAdd(16, 16);
    PowAdd(32, 32);
    PowAdd(3, 8);
    PowAdd(11, 16);
    PowAdd(27, 32);
  }

  lemma {:induction false} LargePowers()
    ensures Pow2(192) == 0x1_0000_0000_0000_0000_0000_0000_0000_0000_0000_0000_0000_0000
    ensures Pow2(251) == 0x800_0000_0000_0000_0000_0000_0000_0000_0000_0000_0000_0000_0000_0000_0000_0000
  {
    Powers();
    hide Pow2;
    PowAdd(64, 64);
    PowAdd(64, 128);
    PowAdd(59, 192);
  }

  /** The field is that of the Starknet prime. */
  lemma {:induction false} StarknetPrime()
    ensures PRIME == Pow2(251) + 17 * Pow2(192) + 1
  {
    LargePowers();
    hide Pow2;
  }

  /** Nothing of a path that occurs is lost in the field: different paths of one length are different numbers there. */
  lemma {:induction false} PathsApart(p: Bits, q: Bits)
    requires |p| == |q| <= 251 && PathFelt(p) == PathFelt(q)
    ensures p == q
  {
    hide Pow2, Number, PathFelt;
    PathFeltNumber(p);
    PathFeltNumber(q);
    LargePowers();
    NumberBound(p);
    NumberBound(q);
    PowMonotone(|p|, 251);
    NumberApart(p, q);
  }

  lemma {:induction false} PowMonotone(m: nat, n: nat)
    requires m <= n
    ensures 0 < Pow2(m) <= Pow2(n)
    decreases n
  {
    if m < n { PowMonotone(m, n - 1); } else if m > 0 { PowMonotone(m - 1, n - 1); }
  }

  lemma {:induction false} NumberApart(p: Bits, q: Bits)
    requires |p| == |q| && Number(p) == Number(q)
    ensures p == q
  {
    if p != [] {
      var n := |p| - 1;
      NumberApart(p[..n], q[..n]);
      assert p == p[..n] + [p[n]] && q == q[..n] + [q[n]];
    }
  }

  /** For every hash: a leading zero bit, which the number of a path does not show, adds one to the edge's hash. */
  lemma {:induction false} LeadingZeroCounts(H: StarkHash, path: Bits, child: Felt)
    ensures HashEdgeNode(H, [false] + path, child) as int == (HashEdgeNode(H, path, child) as int + 1) % PRIME
    ensures HashEdgeNode(H, [false] + path, child) != HashEdgeNode(H, path, child)
  {
    NumberHigh(false, path);
    PathFeltNumber(path);
    PathFeltNumber([false] + path);
    var x := H(child, PathFelt(path)) as int;
    hide PathFelt, Number;
    assert (x + |path| + 1) % PRIME == ((x + |path|) % PRIME + 1) % PRIME;
  }

  // ----- hashes that give an argument back -----

  /** Some present key has the same first i bits as k and another bit there. */
  ghost predicate Parts(t: Trie, k: Bits, i: nat) {
    i < |k| && exists q: Bits :: |q| == |k| && Lookup(t, q).Some? && q[..i] == k[..i] && q[i] != k[i]
  }

  /** At how many bits from bit i on no present key parts from k. */
  ghost function Alone(t: Trie, k: Bits, i: nat): nat
    requires i <= |k|
    decreases |k| - i
  {
    if i == |k| then 0 else (if Parts(t, k, i) then 0 else 1) + Alone(t, k, i + 1)
  }

  /** The present key that is the least, or with last the greatest: it has the one bit wherever others part from it. */
  ghost predicate Outermost(t: Trie, k: Bits, last: bool) {
    Lookup(t, k).Some? && forall i :: 0 <= i < |k| && Parts(t, k, i) ==> k[i] == last
  }

  /** Below the top node keys part as they do in the trie. */
  lemma {:induction false} PartsBelow(t: Trie, k: Bits, i: nat)
    requires Continues(t, k) && NextLen(t) <= |k| && i <= |k| - NextLen(t)
    ensures Parts(t, k, NextLen(t) + i) <==> Parts(Next(t, k), k[NextLen(t)..], i)
  {
    if Parts(t, k, NextLen(t) + i) { PartsInside(t, k, i); }
    if Parts(Next(t, k), k[NextLen(t)..], i) { PartsOutside(t, k, i); }
  }

  lemma {:induction false} PartsInside(t: Trie, k: Bits, i: nat)
    requires Continues(t, k) && NextLen(t) <= |k| && i <= |k| - NextLen(t) && Parts(t, k, NextLen(t) + i)
    ensures Parts(Next(t, k), k[NextLen(t)..], i)
  {
    hide Continues, Next, NextLen, Lookup;
    var e := NextLen(t);
    var q: Bits :| |q| == |k| && Lookup(t, q).Some? && q[..e + i] == k[..e + i] && q[e + i] != k[e + i];
    assert q[..e] == q[..e + i][..e] == k[..e + i][..e] == k[..e];
    assert q[e..][..i] == q[..e + i][e..] == k[..e + i][e..] == k[e..][..i];
    SameStart(t, k, q);
    assert q[e..][i] != k[e..][i];
  }

  lemma {:induction false} PartsOutside(t: Trie, k: Bits, i: nat)
    requires Continues(t, k) && NextLen(t) <= |k| && Parts(Next(t, k), k[NextLen(t)..], i)
    ensures Parts(t, k, NextLen(t) + i)
  {
    hide Continues, Next, NextLen, Lookup;
    var e := NextLen(t);
    var r := k[e..];
    var q: Bits :| |q| == |r| && Lookup(Next(t, k), q).Some? && q[..i] == r[..i] && q[i] != r[i];
    var long := k[..e] + q;
    assert long[..e] == k[..e] && long[e..] == q;
    SameStart(t, k, long);
    assert long[..e + i] == k[..e] + q[..i] == k[..e] + r[..i] == k[..e + i];
    assert long[e + i] != k[e + i];
  }

  lemma {:induction false} AloneBelow(t: Trie, k: Bits, i: nat)
    requires Continues(t, k) && NextLen(t) <= |k| && i <= |k| - NextLen(t)
    ensures Alone(t, k, NextLen(t) + i) == Alone(Next(t, k), k[NextLen(t)..], i)
    decreases |k| - i
  {
    hide Parts, Continues, Next, NextLen;
    if i < |k| - NextLen(t) {
      PartsBelow(t, k, i);
      AloneBelow(t, k, i + 1);
    }
  }

  lemma {:induction false} OutermostBelow(t: Trie, k: Bits, last: bool)
    requires Continues(t, k) && NextLen(t) <= |k| && Outermost(t, k, last)
    ensures Outermost(Next(t, k), k[NextLen(t)..], last)
  {
    var e := NextLen(t);
    SameStart(t, k, k);
    forall i | 0 <= i < |k[e..]| && Parts(Next(t, k), k[e..], i) ensures k[e..][i] == last {
      PartsBelow(t, k, i);
    }
  }

  /** At a branch the two sides part. */
  lemma {:induction false} BranchParts(t: Trie, k: Bits)
    requires Canonical(t, |k|) && t.Branch?
    ensures Parts(t, k, 0)
  {
    var side := if k[0] then t.left else t.right;
    SomeKeyPresent(side, |k| - 1);
    var q := [!k[0]] + SomeKey(side);
    assert q[1..] == SomeKey(side) && Lookup(t, q).Some? && q[..0] == k[..0];
  }

  /** Along a stem no key parts from another. */
  lemma {:induction false} StemAlone(t: Trie, k: Bits, i: nat)
    requires t.Stem? && t.path <= k && i <= |t.path|
    ensures i < |t.path| ==> !Parts(t, k, i)
    ensures Alone(t, k, i) == |t.path| - i + Alone(t, k, |t.path|)
    decreases |t.path| - i
  {
    if i < |t.path| {
      forall q: Bits | |q| == |k| && Lookup(t, q).Some? ensures q[i] == k[i] { assert t.path <= q; }
      StemAlone(t, k, i + 1);
    }
  }

  lemma {:induction false} PresentContinues(t: Trie, k: Bits)
    requires Canonical(t, |k|) && Lookup(t, k).Some? && !t.Leaf?
    ensures Continues(t, k) && 0 < NextLen(t) <= |k| && Canonical(Next(t, k), |k[NextLen(t)..]|)
    ensures Lookup(Next(t, k), k[NextLen(t)..]) == Lookup(t, k)
  {
  }

  /** With a hash that gives its first argument back, a trie hashes to the value of its least key plus the number of
      this key's bits at which no other key parts from it. */
  lemma {:induction false} FirstArgument(H: StarkHash, t: Trie, k: Bits)
    requires forall a, b :: H(a, b) == a
    requires Canonical(t, |k|) && Outermost(t, k, false)
    ensures Tries.Hash(H, t) as int == (Lookup(t, k).value as int + Alone(t, k, 0)) % PRIME
    decreases |k|
  {
    hide Alone, Parts, Outermost, PathFelt, Continues, Next, NextLen, Canonical, Tries.Hash;
    if t.Leaf? {
      LeafHash(H, t, k);
    } else {
      OutermostPresent(t, k, false);
      var e := NextLen(t);
      PresentContinues(t, k);
      OutermostBelow(t, k, false);
      AloneBelow(t, k, 0);
      FirstArgument(H, Next(t, k), k[e..]);
      FirstHash(H, t, k);
      if t.Branch? { LeastTurnsLeft(t, k); } else { StemAlone(t, k, 0); StemStep(t); }
      AddTwice(Lookup(t, k).value as int, Alone(t, k, e), if t.Stem? then e else 0);
    }
  }

  lemma {:induction false} LeafHash(H: StarkHash, t: Trie, k: Bits)
    requires Canonical(t, |k|) && t.Leaf?
    ensures Alone(t, k, 0) == 0 && Lookup(t, k) == Some(Tries.Hash(H, t))
  {
  }

  lemma {:induction false} OutermostPresent(t: Trie, k: Bits, last: bool)
    requires Outermost(t, k, last)
    ensures Lookup(t, k).Some?
  {
  }

  lemma {:induction false} AddTwice(x: nat, n: nat, e: nat)
    ensures ((x + n) % PRIME + e) % PRIME == (x + n + e) % PRIME
  {
  }

  lemma {:induction false} FirstHash(H: StarkHash, t: Trie, k: Bits)
    requires forall a, b :: H(a, b) == a
    requires Continues(t, k)
    ensures t.Stem? ==> Tries.Hash(H, t) as int == (Tries.Hash(H, Next(t, k)) as int + NextLen(t)) % PRIME
    ensures t.Branch? ==> NextLen(t) == 1 && Tries.Hash(H, t) == Tries.Hash(H, t.left)
  {
  }

  lemma {:induction false} StemStep(t: Trie)
    ensures t.Stem? ==> NextLen(t) == |t.path|
  {
  }

  lemma {:induction false} LeastTurnsLeft(t: Trie, k: Bits)
    requires Canonical(t, |k|) && t.Branch? && Outermost(t, k, false)
    ensures Next(t, k) == t.left && Alone(t, k, 0) == Alone(t, k, 1)
  {
    BranchParts(t, k);
  }

  /** Bits i to j of the key are the first at which no other key parts from it. */
  ghost predicate FirstAlone(t: Trie, k: Bits, i: nat, j: nat) {
    && i <= j <= |k| && (forall m :: 0 <= m < i ==> Parts(t, k, m)) && (forall m :: i <= m < j ==> !Parts(t, k, m))
    && (j < |k| ==> i < j && Parts(t, k, j))
  }

  lemma {:induction false} FirstAloneBelow(t: Trie, k: Bits, i: nat, j: nat)
    requires Canonical(t, |k|) && t.Branch? && Continues(t, k) && FirstAlone(t, k, i, j)
    ensures 0 < i && FirstAlone(Next(t, k), k[1..], i - 1, j - 1)
  {
    BranchParts(t, k);
    var c, r := Next(t, k), k[1..];
    forall m | 0 <= m < |r| ensures Parts(c, r, m) <==> Parts(t, k, m + 1) { PartsBelow(t, k, m); }
    assert i > 0;
  }

  lemma {:induction false} StemFirstAlone(t: Trie, k: Bits, i: nat, j: nat)
    requires Canonical(t, |k|) && t.Stem? && t.path <= k && FirstAlone(t, k, i, j)
    ensures i == 0 && j == |t.path|
  {
    forall m: nat | m < |t.path| ensures !Parts(t, k, m) { StemAlone(t, k, m); }
    assert !Parts(t, k, 0);
    if |t.path| < |k| {
      BranchParts(t.child, k[|t.path|..]);
      PartsBelow(t, k, 0);
      assert Parts(t, k, |t.path|);
    }
  }

  /** With a hash that gives its second argument back, a trie hashes to the number and the length of the first run of
      bits of its greatest key at which no other key parts from it, added up; or to the key's value if there is none. */
  lemma {:induction false} SecondArgument(H: StarkHash, t: Trie, k: Bits, i: nat, j: nat)
    requires forall a, b :: H(a, b) == b
    requires Canonical(t, |k|) && Outermost(t, k, true) && FirstAlone(t, k, i, j)
    ensures Tries.Hash(H, t) as int ==
              if i == j then Lookup(t, k).value as int else (Number(k[i..j]) + (j - i)) % PRIME
    decreases |k|
  {
    hide Parts, PathFelt, Number, Continues, Next, NextLen, FirstAlone;
    FirstAloneBounds(t, k, i, j);
    if t.Branch? {
      PresentContinues(t, k);
      OutermostBelow(t, k, true);
      GreatestTurnsRight(H, t, k);
      FirstAloneBelow(t, k, i, j);
      SecondArgument(H, Next(t, k), k[1..], i - 1, j - 1);
      assert k[1..][i - 1..j - 1] == k[i..j];
    } else if t.Stem? {
      StemFirstAlone(t, k, i, j);
      assert k[0..|t.path|] == t.path;
      PathFeltNumber(t.path);
      AddTwice(Number(t.path), 0, |t.path|);
    }
  }

  lemma {:induction false} FirstAloneBounds(t: Trie, k: Bits, i: nat, j: nat)
    requires FirstAlone(t, k, i, j)
    ensures i <= j <= |k|
  {
  }

  lemma {:induction false} GreatestTurnsRight(H: StarkHash, t: Trie, k: Bits)
    requires forall a, b :: H(a, b) == b
    requires Canonical(t, |k|) && t.Branch? && Outermost(t, k, true)
    ensures Continues(t, k) && NextLen(t) == 1 && Next(t, k) == t.right && Tries.Hash(H, t) == Tries.Hash(H, t.right)
  {
    BranchParts(t, k);
  }
}
