/** The nodes of a multi-proof and what they have to do with a trie. */
module ProofNodes {
  import opened Wrappers
  import opened BitStrings
  import opened Felts
  import opened Tries

  datatype ProofNode = Binary(left: Felt, right: Felt) | Edge(child: Felt, path: Bits) {
    function Hash(H: StarkHash): Felt {
      match this
      case Binary(left, right) => HashBinaryNode(H, left, right)
      case Edge(child, path) => HashEdgeNode(H, path, child)
    }
  }

  type MultiProof = map<Felt, ProofNode>

  function ProofNodeOf(H: StarkHash, t: Trie): ProofNode
    requires !t.Leaf?
  {
    if t.Branch? then Binary(Tries.Hash(H, t.left), Tries.Hash(H, t.right)) else Edge(Tries.Hash(H, t.child), t.path)
  }

  /** The pair is the hash and the proof node of some node of the trie. */
  predicate HasNode(H: StarkHash, t: Trie, f: Felt, node: ProofNode) {
    match t
    case Leaf(_) => false
    case Branch(l, r) =>
      (f == Tries.Hash(H, t) && node == ProofNodeOf(H, t)) || HasNode(H, l, f, node) || HasNode(H, r, f, node)
    case Stem(_, c) => (f == Tries.Hash(H, t) && node == ProofNodeOf(H, t)) || HasNode(H, c, f, node)
  }

  /** Every entry of the proof is a node of the trie. */
  predicate Honest(H: StarkHash, t: Trie, proof: MultiProof) {
    forall f :: f in proof ==> HasNode(H, t, f, proof[f])
  }

  /** The proof has an entry for every node of the trie above bit n of the key. */
  ghost predicate Covers(H: StarkHash, t: Trie, k: Bits, n: nat, proof: MultiProof) {
    forall m: nat :: m < n && Boundary(t, k, m) ==> Tries.Hash(H, Sub(t, k, m)) in proof
  }

  /** The hash is that of a node on the key's way. */
  ghost predicate OnWay(H: StarkHash, t: Trie, k: Bits, f: Felt) {
    exists m: nat :: m < |k| && Boundary(t, k, m) && f == Tries.Hash(H, Sub(t, k, m))
  }

  lemma {:induction false} SubHasNode(H: StarkHash, t: Trie, k: Bits, n: nat, f: Felt, node: ProofNode)
    requires Boundary(t, k, n) && HasNode(H, Sub(t, k, n), f, node)
    ensures HasNode(H, t, f, node)
    decreases t
  {
    if n > 0 { SubHasNode(H, Next(t, k), k[NextLen(t)..], n - NextLen(t), f, node); }
  }

  lemma {:induction false} SamePrefixSub(t: Trie, j: Bits, k: Bits, n: nat)
    requires Boundary(t, k, n) && n <= |j| && n <= |k| && j[..n] == k[..n]
    ensures Boundary(t, j, n) && Sub(t, j, n) == Sub(t, k, n)
    decreases t
  {
    if n > 0 {
      var e := NextLen(t);
      SamePrefixStep(j, k, e, n);
      assert Continues(t, j) && Next(t, j) == Next(t, k);
      hide Continues, Next, NextLen;
      SamePrefixSub(Next(t, k), j[e..], k[e..], n - e);
    }
  }

  /** No node lies between a node and the next one. */
  lemma {:induction false} CoverNext(H: StarkHash, t: Trie, k: Bits, n: nat, proof: MultiProof)
    requires Boundary(t, k, n) && Covers(H, t, k, n + 1, proof)
    ensures Covers(H, t, k, n + NextLen(Sub(t, k, n)), proof)
    ensures n <= |k| && !Continues(Sub(t, k, n), k[n..]) ==> Covers(H, t, k, |k|, proof)
  {
    SubLookup(t, k, n);
    forall m: nat | n < m && Boundary(t, k, m)
      ensures Continues(Sub(t, k, n), k[n..]) && n + NextLen(Sub(t, k, n)) <= m
    {
      BoundaryGap(t, k, n, m);
    }
  }

  lemma {:induction false} CoverSamePrefix(H: StarkHash, t: Trie, j: Bits, k: Bits, n: nat, h: nat, proof: MultiProof)
    requires Covers(H, t, j, n, proof) && h < n <= |j| && h <= |k| && j[..h] == k[..h]
    ensures Covers(H, t, k, h + 1, proof)
  {
    forall m: nat | m <= h && Boundary(t, k, m) ensures Tries.Hash(H, Sub(t, k, m)) in proof {
      assert j[..m] == j[..h][..m] == k[..h][..m] == k[..m];
      SamePrefixSub(t, j, k, m);
    }
  }

  // ----- what a hash without collisions tells -----

  /** Nodes of the two tries that have the same hash are the same proof node. */
  ghost predicate NoClash(H: StarkHash, t: Trie, u: Trie) {
    forall f, node, node' :: HasNode(H, t, f, node) && HasNode(H, u, f, node') ==> node == node'
  }

  lemma {:induction false} NoClashBelow(H: StarkHash, t: Trie, u: Trie, c: Trie, d: Trie)
    requires NoClash(H, t, u)
    requires c == t || (t.Branch? && (c == t.left || c == t.right)) || (t.Stem? && c == t.child)
    requires d == u || (u.Branch? && (d == u.left || d == u.right)) || (u.Stem? && d == u.child)
    ensures NoClash(H, c, d)
  {
    hide ProofNodeOf, Tries.Hash;
    forall f, node, node' | HasNode(H, c, f, node) && HasNode(H, d, f, node') ensures node == node' {
      assert HasNode(H, t, f, node) && HasNode(H, u, f, node');
    }
  }

  /** The root hash binds: tries of one height whose nodes do not collide have the same hash only if they are the
      same. */
  lemma {:induction false} HashBinds(H: StarkHash, t: Trie, u: Trie, h: nat)
    requires Canonical(t, h) && Canonical(u, h) && NoClash(H, t, u) && Tries.Hash(H, t) == Tries.Hash(H, u)
    ensures t == u
  {
    if !t.Leaf? && !u.Leaf? {
      assert HasNode(H, t, Tries.Hash(H, t), ProofNodeOf(H, t)) && HasNode(H, u, Tries.Hash(H, u), ProofNodeOf(H, u));
      assert ProofNodeOf(H, t) == ProofNodeOf(H, u);
      hide NoClash, HasNode;
      match (t, u)
      case (Branch(l, r), Branch(l', r')) =>
        NoClashBelow(H, t, u, l, l');
        NoClashBelow(H, t, u, r, r');
        HashBinds(H, l, l', h - 1);
        HashBinds(H, r, r', h - 1);
      case (Stem(p, c), Stem(_, c')) =>
        NoClashBelow(H, t, u, c, c');
        HashBinds(H, c, c', h - |p|);
      case _ =>
    }
  }

  /** An insertion that changes the trie changes the hash of every node that the key passes. */
  lemma {:induction false} InsertChanges(H: StarkHash, t: Trie, k: Bits, v: Felt)
    requires Canonical(t, |k|) && v != 0 && Lookup(t, k) != Some(v) && NoClash(H, t, TrieInsert(t, k, v))
    ensures HashesChange(H, t, TrieInsert(t, k, v), k, PassedBits(t, k))
    decreases t
  {
    var u := TrieInsert(t, k, v);
    InsertCanonical(t, k, v);
    InsertLookup(t, k, v, k);
    if Tries.Hash(H, t) == Tries.Hash(H, u) { HashBinds(H, t, u, |k|); }
    if Continues(t, k) {
      var e := NextLen(t);
      InsertNext(t, k, v);
      NoClashBelow(H, t, u, Next(t, k), Next(u, k));
      hide NoClash, Canonical, Tries.Hash, Continues, Next, NextLen, TrieInsert, Lookup;
      InsertChanges(H, Next(t, k), k[e..], v);
    }
  }

  lemma {:induction false} InsertNext(t: Trie, k: Bits, v: Felt)
    requires Canonical(t, |k|) && Continues(t, k)
    ensures NextLen(t) <= |k| && Canonical(Next(t, k), |k[NextLen(t)..]|)
    ensures Lookup(Next(t, k), k[NextLen(t)..]) == Lookup(t, k)
    ensures var u := TrieInsert(t, k, v);
            Continues(u, k) && NextLen(u) == NextLen(t) && Next(u, k) == TrieInsert(Next(t, k), k[NextLen(t)..], v)
  {
  }

  /** A deletion changes the hash of every node above the last branch on the key's way. */
  lemma {:induction false} DeleteChanges(H: StarkHash, t: Trie, k: Bits)
    requires Canonical(t, |k|) && Lookup(t, k).Some? && TrieDelete(t, k).Some? && NoClash(H, t, TrieDelete(t, k).value)
    ensures HashesChange(H, t, TrieDelete(t, k).value, k, LastBranch(t, k))
    decreases t
  {
    var u := TrieDelete(t, k).value;
    DeleteCanonical(t, k);
    DeleteLookup(t, k, k);
    if Tries.Hash(H, t) == Tries.Hash(H, u) { HashBinds(H, t, u, |k|); }
    if NextLen(t) < LastBranch(t, k) {
      var e := NextLen(t);
      DeleteNext(t, k);
      NoClashBelow(H, t, u, Next(t, k), Next(u, k));
      hide NoClash, Canonical, Tries.Hash, Continues, Next, NextLen, TrieDelete, Lookup;
      DeleteChanges(H, Next(t, k), k[e..]);
    }
  }

  lemma {:induction false} DeleteNext(t: Trie, k: Bits)
    requires Canonical(t, |k|) && NextLen(t) < LastBranch(t, k)
    ensures Continues(t, k) && NextLen(t) <= |k| && Canonical(Next(t, k), |k[NextLen(t)..]|)
    ensures LastBranch(t, k) == NextLen(t) + LastBranch(Next(t, k), k[NextLen(t)..])
    ensures Lookup(Next(t, k), k[NextLen(t)..]) == Lookup(t, k)
    ensures TrieDelete(t, k).Some? && TrieDelete(Next(t, k), k[NextLen(t)..]).Some?
    ensures var u := TrieDelete(t, k).value;
            && Continues(u, k) && NextLen(u) == NextLen(t)
            && Next(u, k) == TrieDelete(Next(t, k), k[NextLen(t)..]).value
  {
  }
}
