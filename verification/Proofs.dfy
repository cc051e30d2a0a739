/** Multi-proofs: generating them by visiting nodes during seeks, and verifying them with a cache of checked hashes. */
module Proofs {
  import opened Wrappers
  import opened BitStrings
  import opened Felts
  import opened Tries
  import opened ProofNodes
  import opened TreeState
  import opened Shapes
  import opened KeyValueDb
  import opened MerkleTrie

  datatype VerificationError =
    | KeyLengthMismatch(key: Bits, expected: nat, got: nat)
    | MissingNode(path: Bits, hash: Felt)
    | Overshot(path: Bits, expectedMaxHeight: nat)
    | HashMismatch(path: Bits, expectedHash: Felt, computedHash: Felt)

  type Verdict = Result<Felt, VerificationError>

  datatype Step = Done(verdict: Verdict) | Go(pos: nat, felt: Felt)

  /** One step of the check without a cache: the walk has come to bit pos of the key and expects this hash there. */
  function StepFrom(H: StarkHash, proof: MultiProof, k: Bits, pos: nat, felt: Felt): (r: Step)
    requires pos <= |k|
    ensures r.Go? ==> pos <= r.pos <= |k| && felt in proof && proof[felt].Hash(H) == felt
    ensures r.Go? && r.pos == pos ==> proof[felt] == Edge(r.felt, [])
  {
    if pos == |k| then Done(Success(felt))
    else if felt !in proof then Done(Failure(MissingNode(k[..pos], felt)))
    else
      var node := proof[felt];
      if node.Hash(H) != felt then Done(Failure(HashMismatch(k[..pos], felt, node.Hash(H))))
      else
        match node
        case Binary(left, right) => Go(pos + 1, if k[pos] then right else left)
        case Edge(child, path) => if path <= k[pos..] then Go(pos + |path|, child) else Done(Success(0))
  }

  /** The outcome of at most n steps; None when it takes more. */
  function Walk(H: StarkHash, proof: MultiProof, k: Bits, pos: nat, felt: Felt, n: nat): Option<Verdict>
    requires pos <= |k|
    decreases n
  {
    if n == 0 then None else
      match StepFrom(H, proof, k, pos, felt)
      case Done(verdict) => Some(verdict)
      case Go(pos', felt') => Walk(H, proof, k, pos', felt', n - 1)
  }

  /** The verdict on a key, whatever the number of steps it takes. */
  ghost predicate Concludes(H: StarkHash, proof: MultiProof, root: Felt, k: Bits, verdict: Verdict) {
    exists n: nat :: Walk(H, proof, k, 0, root, n) == Some(verdict)
  }

  lemma {:induction false} WalkOne(H: StarkHash, proof: MultiProof, k: Bits, pos: nat, felt: Felt, n: nat)
    requires pos <= |k|
    ensures Walk(H, proof, k, pos, felt, n) ==
              if n == 0 then None else
                match StepFrom(H, proof, k, pos, felt)
                case Done(verdict) => Some(verdict)
                case Go(pos', felt') => Walk(H, proof, k, pos', felt', n - 1)
  {
  }

  lemma {:induction false} WalkMore(H: StarkHash, proof: MultiProof, k: Bits, pos: nat, felt: Felt, n: nat, m: nat)
    requires pos <= |k| && Walk(H, proof, k, pos, felt, n).Some? && n <= m
    ensures Walk(H, proof, k, pos, felt, m) == Walk(H, proof, k, pos, felt, n)
    decreases n
  {
    match StepFrom(H, proof, k, pos, felt)
    case Done(_) =>
    case Go(pos', felt') => WalkMore(H, proof, k, pos', felt', n - 1, m - 1);
  }

  /** There is one verdict at most. */
  lemma {:induction false} VerdictUnique(H: StarkHash, proof: MultiProof, root: Felt, k: Bits, v: Verdict, w: Verdict)
    requires Concludes(H, proof, root, k, v) && Concludes(H, proof, root, k, w)
    ensures v == w
  {
    var m: nat :| Walk(H, proof, k, 0, root, m) == Some(v);
    var n: nat :| Walk(H, proof, k, 0, root, n) == Some(w);
    WalkMore(H, proof, k, 0, root, m, m + n);
    WalkMore(H, proof, k, 0, root, n, m + n);
  }

  // ----- termination -----

  /** The entry is an edge of no bits that passes the hash check: a step that makes no headway. */
  predicate Idle(H: StarkHash, proof: MultiProof, f: Felt) {
    f in proof && proof[f].Edge? && proof[f].path == [] && proof[f].Hash(H) == f
  }

  /** Where n idle steps lead, if there are that many. */
  function IdleTo(H: StarkHash, proof: MultiProof, f: Felt, n: nat): Option<Felt>
    decreases n
  {
    if n == 0 then Some(f) else if Idle(H, proof, f) then IdleTo(H, proof, proof[f].child, n - 1) else None
  }

  /** Some chain of idle steps comes back to its start. */
  ghost predicate Circular(H: StarkHash, proof: MultiProof) {
    exists f, n: nat :: n > 0 && IdleTo(H, proof, f, n) == Some(f)
  }

  ghost predicate Ends(H: StarkHash, proof: MultiProof, root: Felt, k: Bits) {
    exists n: nat :: Walk(H, proof, k, 0, root, n).Some?
  }

  /** The hashes that n idle steps pass. */
  ghost function Visited(H: StarkHash, proof: MultiProof, f: Felt, n: nat): set<Felt>
    requires IdleTo(H, proof, f, n).Some?
    decreases n
  {
    if n == 0 then {} else {f} + Visited(H, proof, proof[f].child, n - 1)
  }

  lemma {:induction false} VisitedReached(H: StarkHash, proof: MultiProof, f: Felt, n: nat, g: Felt)
    requires IdleTo(H, proof, f, n).Some? && g in Visited(H, proof, f, n)
    ensures g in proof && exists i: nat :: i < n && IdleTo(H, proof, f, i) == Some(g)
    decreases n
  {
    if g == f {
      assert IdleTo(H, proof, f, 0) == Some(g);
    } else {
      VisitedReached(H, proof, proof[f].child, n - 1, g);
      var i: nat :| i < n - 1 && IdleTo(H, proof, proof[f].child, i) == Some(g);
      assert IdleTo(H, proof, f, i + 1) == Some(g);
    }
  }

  /** Idle steps that pass a hash twice have come to a circle. */
  lemma {:induction false} FindCircle(H: StarkHash, proof: MultiProof, f: Felt, n: nat)
    returns (i: nat, g: Felt, around: nat)
    requires IdleTo(H, proof, f, n).Some? && |Visited(H, proof, f, n)| != n
    ensures i < n && IdleTo(H, proof, f, i) == Some(g) && around > 0 && IdleTo(H, proof, g, around) == Some(g)
    decreases n
  {
    var c := proof[f].child;
    if f in Visited(H, proof, c, n - 1) {
      VisitedReached(H, proof, c, n - 1, f);
      var m: nat :| m < n - 1 && IdleTo(H, proof, c, m) == Some(f);
      i, g, around := 0, f, m + 1;
    } else {
      i, g, around := FindCircle(H, proof, c, n - 1);
      i := i + 1;
    }
  }

  lemma {:induction false} SubsetSize(a: set<Felt>, b: set<Felt>)
    requires a <= b
    ensures |a| <= |b|
  {
    assert b == a + (b - a);
  }

  /** Fewer idle steps than asked for end at a hash that is not idle. */
  lemma {:induction false} IdleEnd(H: StarkHash, proof: MultiProof, f: Felt, m: nat) returns (c: nat, g: Felt)
    requires IdleTo(H, proof, f, m).None?
    ensures c < m && IdleTo(H, proof, f, c) == Some(g) && !Idle(H, proof, g)
    decreases m
  {
    if Idle(H, proof, f) {
      c, g := IdleEnd(H, proof, proof[f].child, m - 1);
      c := c + 1;
    } else {
      c, g := 0, f;
    }
  }

  /** Idle steps take a walk nowhere. */
  lemma {:induction false} IdleWalk(H: StarkHash, proof: MultiProof, k: Bits, pos: nat, f: Felt, n: nat, m: nat)
    requires pos < |k| && IdleTo(H, proof, f, n).Some?
    ensures m <= n ==> Walk(H, proof, k, pos, f, m).None?
    ensures Walk(H, proof, k, pos, f, n + m) == Walk(H, proof, k, pos, IdleTo(H, proof, f, n).value, m)
    decreases n
  {
    if n > 0 {
      IdleStep(H, proof, k, pos, f);
      IdleWalk(H, proof, k, pos, proof[f].child, n - 1, m);
      if 0 < m { IdleWalk(H, proof, k, pos, proof[f].child, n - 1, m - 1); }
    }
  }

  /** The steps without headway are the idle ones. */
  lemma {:induction false} IdleStep(H: StarkHash, proof: MultiProof, k: Bits, pos: nat, f: Felt)
    requires pos < |k|
    ensures if Idle(H, proof, f) then StepFrom(H, proof, k, pos, f) == Go(pos, proof[f].child)
            else var step := StepFrom(H, proof, k, pos, f); step.Go? ==> step.pos > pos
  {
  }

  lemma {:induction false} CircleEndless(H: StarkHash, proof: MultiProof, k: Bits, pos: nat, f: Felt, n: nat, m: nat)
    requires pos < |k| && n > 0 && IdleTo(H, proof, f, n) == Some(f)
    ensures Walk(H, proof, k, pos, f, m).None?
  {
    if m <= n {
      IdleWalk(H, proof, k, pos, f, n, m);
    } else {
      IdleWalk(H, proof, k, pos, f, n, m - n);
      CircleEndless(H, proof, k, pos, f, n, m - n);
    }
  }

  /** The walk goes on for any number of steps. */
  ghost predicate Endless(H: StarkHash, proof: MultiProof, k: Bits, pos: nat, f: Felt)
    requires pos <= |k|
  {
    forall m: nat :: Walk(H, proof, k, pos, f, m).None?
  }

  /** More idle steps in a row than the proof has entries go on forever. */
  lemma {:induction false} IdleEndless(H: StarkHash, proof: MultiProof, k: Bits, pos: nat, f: Felt)
    requires pos < |k| && IdleTo(H, proof, f, |proof| + 1).Some?
    ensures Circular(H, proof) && Endless(H, proof, k, pos, f)
  {
    var n := |proof| + 1;
    forall g | g in Visited(H, proof, f, n) ensures g in proof.Keys { VisitedReached(H, proof, f, n, g); }
    SubsetSize(Visited(H, proof, f, n), proof.Keys);
    var i, g, around := FindCircle(H, proof, f, n);
    hide Walk, IdleTo;
    forall m: nat ensures Walk(H, proof, k, pos, f, m).None? {
      IdleWalk(H, proof, k, pos, f, i, if m <= i then m else m - i);
      if m > i { CircleEndless(H, proof, k, pos, g, around, m - i); }
    }
  }

  /** How many steps a walk over so many bits takes if it ends: on each bit no more idle ones than there are entries. */
  function Rounds(bits: nat, entries: nat): (r: nat)
    ensures r == bits * (entries + 1) + 1
  {
    if bits == 0 then 1 else entries + 1 + Rounds(bits - 1, entries)
  }

  lemma {:induction false} RoundsGrow(bits: nat, bits': nat, entries: nat)
    requires bits < bits'
    ensures entries + 1 + Rounds(bits, entries) <= Rounds(bits', entries)
  {
    if bits + 1 < bits' { RoundsGrow(bits, bits' - 1, entries); }
  }

  /** A walk ends within that many steps or never, and never only if there is a circle. */
  lemma {:induction false} WalkDecided(H: StarkHash, proof: MultiProof, k: Bits, pos: nat, f: Felt)
    requires pos <= |k|
    ensures Walk(H, proof, k, pos, f, Rounds(|k| - pos, |proof|)).Some?
            || (Circular(H, proof) && Endless(H, proof, k, pos, f))
    decreases |k| - pos
  {
    hide IdleTo, Circular, Endless;
    if pos == |k| {
      assert StepFrom(H, proof, k, pos, f) == Done(Success(f));
    } else if IdleTo(H, proof, f, |proof| + 1).Some? {
      IdleEndless(H, proof, k, pos, f);
    } else {
      hide Walk, Rounds;
      var c, g := IdleEnd(H, proof, f, |proof| + 1);
      var rounds := Rounds(|k| - pos, |proof|);
      IdleStep(H, proof, k, pos, g);
      match StepFrom(H, proof, k, pos, g)
      case Done(_) =>
        WalkOne(H, proof, k, pos, g, 1);
        IdleWalk(H, proof, k, pos, f, c, 1);
        RoundsGrow(0, |k| - pos, |proof|);
        WalkMore(H, proof, k, pos, f, c + 1, rounds);
      case Go(pos', f') =>
        WalkDecided(H, proof, k, pos', f');
        AfterIdle(H, proof, k, pos, f, c, g, pos', f');
        var rest := Rounds(|k| - pos', |proof|);
        RoundsGrow(|k| - pos', |k| - pos, |proof|);
        if Walk(H, proof, k, pos', f', rest).Some? { WalkMore(H, proof, k, pos, f, c + 1 + rest, rounds); }
    }
  }

  lemma {:induction false} AfterIdle(H: StarkHash, proof: MultiProof, k: Bits, pos: nat, f: Felt, c: nat, g: Felt,
          pos': nat, f': Felt)
    requires pos < |k| && IdleTo(H, proof, f, c) == Some(g) && StepFrom(H, proof, k, pos, g) == Go(pos', f')
    ensures forall m: nat :: Walk(H, proof, k, pos, f, c + 1 + m) == Walk(H, proof, k, pos', f', m)
    ensures Endless(H, proof, k, pos', f') ==> Endless(H, proof, k, pos, f)
  {
    hide Walk, StepFrom, IdleTo;
    forall m: nat ensures Walk(H, proof, k, pos, f, c + 1 + m) == Walk(H, proof, k, pos', f', m) {
      IdleWalk(H, proof, k, pos, f, c, 1 + m);
      WalkOne(H, proof, k, pos, g, 1 + m);
      assert c + (1 + m) == c + 1 + m;
    }
    if Endless(H, proof, k, pos', f') {
      forall m: nat ensures Walk(H, proof, k, pos, f, m).None? {
        if m <= c {
          IdleWalk(H, proof, k, pos, f, c, m);
        } else {
          assert Walk(H, proof, k, pos, f, c + 1 + (m - c - 1)) == Walk(H, proof, k, pos', f', m - c - 1);
        }
      }
    }
  }

  /** For every root and key: the check ends if and only if it does within a number of steps known beforehand. */
  lemma {:induction false} EndsWithin(H: StarkHash, proof: MultiProof, root: Felt, k: Bits)
    ensures Ends(H, proof, root, k) <==> Walk(H, proof, k, 0, root, Rounds(|k|, |proof|)).Some?
  {
    hide Walk, Rounds;
    WalkDecided(H, proof, k, 0, root);
  }

  /** The check ends on every root and key exactly when no chain of hash-correct edges of no bits comes back to its
      start. */
  lemma {:induction false} Terminates(H: StarkHash, proof: MultiProof)
    ensures (forall root: Felt, k: Bits :: Ends(H, proof, root, k)) <==> !Circular(H, proof)
  {
    hide Walk, StepFrom;
    if !Circular(H, proof) {
      forall root: Felt, k: Bits ensures Ends(H, proof, root, k) { WalkDecided(H, proof, k, 0, root); }
    } else {
      var f, n: nat :| n > 0 && IdleTo(H, proof, f, n) == Some(f);
      forall m: nat ensures Walk(H, proof, [true], 0, f, m).None? { CircleEndless(H, proof, [true], 0, f, n, m); }
      assert !Ends(H, proof, f, [true]);
    }
  }

  /** An entry that leads to itself without a bit keeps the check going forever. */
  lemma {:induction false} LoopEndless(H: StarkHash, f: Felt, k: Bits)
    requires k != [] && HashEdgeNode(H, [], f) == f
    ensures !Ends(H, map[f := Edge(f, [])], f, k)
  {
    var proof: MultiProof := map[f := Edge(f, [])];
    assert Idle(H, proof, f);
    assert IdleTo(H, proof, f, 1) == Some(f);
    forall m: nat ensures Walk(H, proof, k, 0, f, m).None? { CircleEndless(H, proof, k, 0, f, 1, m); }
  }

  /** With a hash that gives its first argument back there is such an entry even for the root hash of a trie. */
  lemma {:induction false} EndlessCheck(k: Bits, v: Felt)
    requires k != [] && v != 0
    ensures var H: StarkHash, t := (a, b) => a, Stem(k, Leaf(v));
            Canonical(t, |k|) && !Ends(H, map[Tries.Hash(H, t) := Edge(Tries.Hash(H, t), [])], Tries.Hash(H, t), k)
  {
    var H: StarkHash, t := (a, b) => a, Stem(k, Leaf(v));
    LoopEndless(H, Tries.Hash(H, t), k);
  }

  /** The cache has every entry that so many steps pass. */
  ghost predicate CachedWay(H: StarkHash, proof: MultiProof, k: Bits, pos: nat, felt: Felt, n: nat, cache: set<Felt>)
    requires pos <= |k|
    decreases n
  {
    n == 0 ||
      match StepFrom(H, proof, k, pos, felt)
      case Done(_) => true
      case Go(pos', felt') => felt in cache && CachedWay(H, proof, k, pos', felt', n - 1, cache)
  }

  lemma {:induction false} CachedNone(H: StarkHash, proof: MultiProof, k: Bits, pos: nat, felt: Felt, cache: set<Felt>)
    requires pos <= |k|
    ensures CachedWay(H, proof, k, pos, felt, 0, cache)
  {
  }

  lemma {:induction false} CachedOne(H: StarkHash, proof: MultiProof, k: Bits, pos: nat, felt: Felt, n: nat,
          cache: set<Felt>)
    requires pos <= |k| && n > 0
    ensures CachedWay(H, proof, k, pos, felt, n, cache) <==>
              match StepFrom(H, proof, k, pos, felt)
              case Done(_) => true
              case Go(pos', felt') => felt in cache && CachedWay(H, proof, k, pos', felt', n - 1, cache)
  {
  }

  /** The check with the hashes checked so far, which change no verdict. The count stands for time: None is returned
      where the loop without it would go on forever, and there alone. The path never gets past the end of the key. */
  method VerifyKey(H: StarkHash, proof: MultiProof, root: Felt, k: Bits, treeHeight: nat, checkedCache: set<Felt>)
    returns (r: Option<Verdict>, checkedCache': set<Felt>)
    requires forall f :: f in checkedCache ==> f in proof && proof[f].Hash(H) == f
    ensures forall f :: f in checkedCache' ==> f in proof && proof[f].Hash(H) == f
    ensures |k| != treeHeight ==> r == Some(Failure(KeyLengthMismatch(k, treeHeight, |k|)))
    ensures |k| == treeHeight ==> (r.None? <==> !Ends(H, proof, root, k))
    ensures |k| == treeHeight && r.Some? ==> Concludes(H, proof, root, k, r.value)
    ensures checkedCache <= checkedCache'
    ensures |k| == treeHeight ==> CachedWay(H, proof, k, 0, root, Rounds(|k|, |proof|), checkedCache')
  {
    hide Walk, Rounds, CachedWay;
    checkedCache' := checkedCache;
    if |k| != treeHeight {
      return Some(Failure(KeyLengthMismatch(k, treeHeight, |k|))), checkedCache';
    }
    var currentPath: Bits := [];
    var currentFelt := root;
    var rounds := Rounds(|k|, |proof|);
    EndsWithin(H, proof, root, k);
    while rounds > 0
      invariant |currentPath| <= |k| && currentPath == k[..|currentPath|]
      invariant forall f :: f in checkedCache' ==> f in proof && proof[f].Hash(H) == f
      invariant Walk(H, proof, k, 0, root, Rounds(|k|, |proof|)) ==
                Walk(H, proof, k, |currentPath|, currentFelt, rounds)
      invariant checkedCache <= checkedCache'
      invariant forall c :: checkedCache' <= c && CachedWay(H, proof, k, |currentPath|, currentFelt, rounds, c) ==>
                  CachedWay(H, proof, k, 0, root, Rounds(|k|, |proof|), c)
    {
      WalkOne(H, proof, k, |currentPath|, currentFelt, rounds);
      forall c ensures CachedWay(H, proof, k, |currentPath|, currentFelt, rounds, c) <==>
        match StepFrom(H, proof, k, |currentPath|, currentFelt)
        case Done(_) => true
        case Go(pos', felt') => currentFelt in c && CachedWay(H, proof, k, pos', felt', rounds - 1, c)
      {
        CachedOne(H, proof, k, |currentPath|, currentFelt, rounds, c);
      }
      rounds := rounds - 1;
      if |currentPath| == |k| {
        return Some(Success(currentFelt)), checkedCache';
      }
      if |currentPath| > |k| {
        assert false; // the path never gets past the key
      }
      if currentFelt !in proof {
        return Some(Failure(MissingNode(currentPath, currentFelt))), checkedCache';
      }
      var node := proof[currentFelt];
      if currentFelt !in checkedCache' {
        var computedHash := node.Hash(H);
        if computedHash != currentFelt {
          return Some(Failure(HashMismatch(currentPath, currentFelt, computedHash))), checkedCache';
        }
        checkedCache' := checkedCache' + {currentFelt};
      }
      match node {
        case Binary(left, right) =>
          var direction := k[|currentPath|];
          currentPath := currentPath + [direction];
          currentFelt := if direction then right else left;
        case Edge(child, path) =>
          EdgeFits(k, |currentPath|, path);
          if |currentPath| + |path| > |k| || k[|currentPath|..|currentPath| + |path|] != path {
            // the key leaves the edge: absent
            return Some(Success(0)), checkedCache';
          }
          currentPath := currentPath + path;
          currentFelt := child;
      }
    }
    WalkOne(H, proof, k, |currentPath|, currentFelt, 0);
    CachedNone(H, proof, k, |currentPath|, currentFelt, checkedCache');
    return None, checkedCache';
  }

  lemma {:induction false} EdgeFits(k: Bits, pos: nat, path: Bits)
    requires pos <= |k|
    ensures path <= k[pos..] <==> pos + |path| <= |k| && k[pos..pos + |path|] == path
    ensures path <= k[pos..] ==> k[..pos] + path == k[..pos + |path|]
  {
  }

  /** One verdict per key, in order, up to the first key whose check goes on forever, if there is one; hashes checked
      for one key are not checked again for the next. */
  method VerifyProof(H: StarkHash, proof: MultiProof, root: Felt, keys: seq<Bits>, treeHeight: nat)
    returns (results: seq<Verdict>)
    ensures |results| <= |keys|
    ensures forall i :: 0 <= i < |results| ==>
              if |keys[i]| != treeHeight then results[i] == Failure(KeyLengthMismatch(keys[i], treeHeight, |keys[i]|))
              else Concludes(H, proof, root, keys[i], results[i])
    ensures |results| < |keys| ==> |keys[|results|]| == treeHeight && !Ends(H, proof, root, keys[|results|])
  {
    hide Concludes, Ends;
    var checkedCache: set<Felt> := {};
    results := [];
    for j := 0 to |keys|
      invariant |results| == j
      invariant forall f :: f in checkedCache ==> f in proof && proof[f].Hash(H) == f
      invariant forall i :: 0 <= i < j ==>
                  if |keys[i]| != treeHeight then
                    results[i] == Failure(KeyLengthMismatch(keys[i], treeHeight, |keys[i]|))
                  else Concludes(H, proof, root, keys[i], results[i])
    {
      var r;
      r, checkedCache := VerifyKey(H, proof, root, keys[j], treeHeight, checkedCache);
      if r.None? { return; }
      results := results + [r.value];
    }
  }

  // ----- soundness and completeness -----

  /** The value the proof system shows for a key: zero when the trie does not have it. */
  function ProvenValue(t: Trie, k: Bits): Felt {
    match Lookup(t, k)
    case Some(v) => v
    case None => 0
  }

  /** No proof node that passes its hash check collides with a different node of the trie. */
  ghost predicate NoCollision(H: StarkHash, t: Trie, proof: MultiProof) {
    forall f, node :: HasNode(H, t, f, node) && f in proof && proof[f].Hash(H) == f ==> proof[f] == node
  }

  /** One step of the check on the hash of a subtrie: to the hash of the child the key goes to, or to the right
      answer. */
  lemma {:induction false} SoundStep(H: StarkHash, u: Trie, proof: MultiProof, k: Bits, pos: nat)
    requires pos <= |k| && Canonical(u, |k| - pos) && NoCollision(H, u, proof)
    ensures match StepFrom(H, proof, k, pos, Tries.Hash(H, u))
            case Done(verdict) =>
              verdict.Success? ==> verdict.value == ProvenValue(u, k[pos..])
            case Go(pos', felt) =>
              && Continues(u, k[pos..]) && pos' == pos + NextLen(u) && NextLen(u) > 0 && pos' <= |k|
              && felt == Tries.Hash(H, Next(u, k[pos..]))
  {
    if !u.Leaf? { assert HasNode(H, u, Tries.Hash(H, u), ProofNodeOf(H, u)); }
    if u.Branch? { assert k[pos..][0] == k[pos]; }
  }

  lemma {:induction false} NextParts(H: StarkHash, u: Trie, proof: MultiProof, k: Bits, pos: nat)
    requires pos <= |k| && Canonical(u, |k| - pos) && NoCollision(H, u, proof) && Continues(u, k[pos..])
             && pos + NextLen(u) <= |k|
    ensures var c := Next(u, k[pos..]);
            && Canonical(c, |k| - pos - NextLen(u)) && NoCollision(H, c, proof)
            && ProvenValue(c, k[pos + NextLen(u)..]) == ProvenValue(u, k[pos..])
  {
    assert k[pos..][NextLen(u)..] == k[pos + NextLen(u)..];
    forall f, node | HasNode(H, Next(u, k[pos..]), f, node) ensures HasNode(H, u, f, node) {
    }
  }

  lemma {:induction false} SoundWalk(H: StarkHash, u: Trie, proof: MultiProof, k: Bits, pos: nat, n: nat)
    requires pos <= |k| && Canonical(u, |k| - pos) && NoCollision(H, u, proof)
    ensures var r := Walk(H, proof, k, pos, Tries.Hash(H, u), n);
            && (r.Some? && r.value.Success? ==> r.value.value == ProvenValue(u, k[pos..]))
            && (n > |k| - pos ==> r.Some?)
    decreases n
  {
    hide NoCollision, Canonical, StepFrom, Tries.Hash, Walk, ProvenValue;
    WalkOne(H, proof, k, pos, Tries.Hash(H, u), n);
    if n > 0 {
      SoundStep(H, u, proof, k, pos);
      match StepFrom(H, proof, k, pos, Tries.Hash(H, u))
      case Done(_) =>
      case Go(pos', _) =>
        NextParts(H, u, proof, k, pos);
        SoundWalk(H, Next(u, k[pos..]), proof, k, pos', n - 1);
    }
  }

  /** Whatever map is offered as a proof: unless one of its nodes collides with one of the trie, the check against the
      trie's root hash ends, and a value it accepts is the trie's value of the key, or zero if the key is absent. */
  lemma {:induction false} Soundness(H: StarkHash, t: Trie, proof: MultiProof, k: Bits, verdict: Verdict)
    requires Canonical(t, |k|) && NoCollision(H, t, proof)
    ensures Ends(H, proof, Tries.Hash(H, t), k)
    ensures Concludes(H, proof, Tries.Hash(H, t), k, verdict) && verdict.Success? ==> verdict.value == ProvenValue(t, k)
  {
    hide Walk, Canonical, NoCollision;
    assert k[0..] == k;
    SoundWalk(H, t, proof, k, 0, |k| + 1);
    if Concludes(H, proof, Tries.Hash(H, t), k, verdict) {
      var n: nat :| Walk(H, proof, k, 0, Tries.Hash(H, t), n) == Some(verdict);
      SoundWalk(H, t, proof, k, 0, n);
    }
  }

  /** Different nodes of the trie have different hashes. */
  ghost predicate Unambiguous(H: StarkHash, t: Trie) {
    NoClash(H, t, t)
  }

  lemma {:induction false} HasNodeHash(H: StarkHash, t: Trie, f: Felt, node: ProofNode)
    requires HasNode(H, t, f, node)
    ensures node.Hash(H) == f
  {
    match t
    case Branch(l, r) =>
      if HasNode(H, l, f, node) { HasNodeHash(H, l, f, node); }
      if HasNode(H, r, f, node) { HasNodeHash(H, r, f, node); }
    case Stem(_, c) =>
      if HasNode(H, c, f, node) { HasNodeHash(H, c, f, node); }
  }

  /** The proof has an entry for the hash, and it passes the hash check. */
  predicate Checked(H: StarkHash, proof: MultiProof, f: Felt) {
    f in proof && proof[f].Hash(H) == f
  }

  /** Every node above bit n on the key's way has such an entry. */
  ghost predicate AllChecked(H: StarkHash, u: Trie, proof: MultiProof, k: Bits, n: nat) {
    forall m: nat :: m < n && Boundary(u, k, m) ==> Checked(H, proof, Tries.Hash(H, Sub(u, k, m)))
  }

  /** What the check reports of a node that does not. */
  function Shortfall(H: StarkHash, proof: MultiProof, p: Bits, f: Felt): VerificationError {
    if f in proof then HashMismatch(p, f, proof[f].Hash(H)) else MissingNode(p, f)
  }

  lemma {:induction false} AllCheckedBelow(H: StarkHash, u: Trie, proof: MultiProof, k: Bits, n: nat)
    requires AllChecked(H, u, proof, k, n) && Continues(u, k) && NextLen(u) <= n
    ensures NextLen(u) > 0 ==> AllChecked(H, Next(u, k), proof, k[NextLen(u)..], n - NextLen(u))
  {
    var e := NextLen(u);
    if e > 0 {
      forall m: nat | m < n - e && Boundary(Next(u, k), k[e..], m)
        ensures Checked(H, proof, Tries.Hash(H, Sub(Next(u, k), k[e..], m)))
      {
        assert Boundary(u, k, e + m) && Sub(u, k, e + m) == Sub(Next(u, k), k[e..], m);
      }
    }
  }

  lemma {:induction false} FirstChecked(H: StarkHash, u: Trie, proof: MultiProof, k: Bits, n: nat)
    requires AllChecked(H, u, proof, k, n) && n > 0
    ensures Checked(H, proof, Tries.Hash(H, u))
  {
    assert Boundary(u, k, 0) && Sub(u, k, 0) == u;
  }

  /** With every node on its way checked, the key is proved. */
  lemma {:induction false} CheckedWalk(H: StarkHash, u: Trie, proof: MultiProof, k: Bits, pos: nat, n: nat)
    requires pos <= |k| && Canonical(u, |k| - pos) && NoCollision(H, u, proof) && n > |k| - pos
    requires AllChecked(H, u, proof, k[pos..], |k| - pos)
    ensures Walk(H, proof, k, pos, Tries.Hash(H, u), n) == Some(Success(ProvenValue(u, k[pos..])))
    decreases n
  {
    hide NoCollision, Canonical, StepFrom, Tries.Hash, Walk, ProvenValue, AllChecked, Continues, Next, NextLen;
    WalkOne(H, proof, k, pos, Tries.Hash(H, u), n);
    SoundStep(H, u, proof, k, pos);
    CheckedStep(H, u, proof, k, pos);
    match StepFrom(H, proof, k, pos, Tries.Hash(H, u))
    case Done(_) =>
    case Go(pos', _) =>
      NextParts(H, u, proof, k, pos);
      AllCheckedBelow(H, u, proof, k[pos..], |k| - pos);
      assert k[pos..][NextLen(u)..] == k[pos'..];
      CheckedWalk(H, Next(u, k[pos..]), proof, k, pos', n - 1);
  }

  lemma {:induction false} CheckedStep(H: StarkHash, u: Trie, proof: MultiProof, k: Bits, pos: nat)
    requires pos <= |k| && AllChecked(H, u, proof, k[pos..], |k| - pos)
    ensures var step := StepFrom(H, proof, k, pos, Tries.Hash(H, u)); step.Done? ==> step.verdict.Success?
  {
    if pos < |k| { FirstChecked(H, u, proof, k[pos..], |k| - pos); }
  }

  /** The check comes to the first node that is not checked and reports it. */
  lemma {:induction false} ShortWalk(H: StarkHash, u: Trie, proof: MultiProof, k: Bits, pos: nat, m: nat, n: nat)
    requires pos + m < |k| && Canonical(u, |k| - pos) && NoCollision(H, u, proof) && n > m
    requires Boundary(u, k[pos..], m) && AllChecked(H, u, proof, k[pos..], m)
    requires !Checked(H, proof, Tries.Hash(H, Sub(u, k[pos..], m)))
    ensures Walk(H, proof, k, pos, Tries.Hash(H, u), n) ==
              Some(Failure(Shortfall(H, proof, k[..pos + m], Tries.Hash(H, Sub(u, k[pos..], m)))))
    decreases n
  {
    hide NoCollision, Canonical, Tries.Hash, Walk, AllChecked, Continues, Next, NextLen;
    WalkOne(H, proof, k, pos, Tries.Hash(H, u), n);
    if m > 0 {
      FirstChecked(H, u, proof, k[pos..], m);
      BoundaryFirst(u, k[pos..], m);
      CheckedGoes(H, u, proof, k, pos);
      SoundStep(H, u, proof, k, pos);
      hide StepFrom;
      NextParts(H, u, proof, k, pos);
      AllCheckedBelow(H, u, proof, k[pos..], m);
      var e := NextLen(u);
      assert k[pos..][e..] == k[pos + e..];
      ShortWalk(H, Next(u, k[pos..]), proof, k, pos + e, m - e, n - 1);
    }
  }

  lemma {:induction false} CheckedGoes(H: StarkHash, u: Trie, proof: MultiProof, k: Bits, pos: nat)
    requires pos < |k| && Canonical(u, |k| - pos) && NoCollision(H, u, proof)
    requires Checked(H, proof, Tries.Hash(H, u)) && Continues(u, k[pos..])
    ensures StepFrom(H, proof, k, pos, Tries.Hash(H, u)).Go?
  {
    assert HasNode(H, u, Tries.Hash(H, u), ProofNodeOf(H, u));
  }

  /** Against a trie's root hash, for every map without collisions, the verdict in full. At the first node of the
      key's way whose entry is missing or does not have its hash, the check fails with just that. */
  lemma {:induction false} FirstShortfall(H: StarkHash, t: Trie, proof: MultiProof, k: Bits, m: nat)
    requires Canonical(t, |k|) && NoCollision(H, t, proof) && m < |k| && Boundary(t, k, m)
    requires AllChecked(H, t, proof, k, m) && !Checked(H, proof, Tries.Hash(H, Sub(t, k, m)))
    ensures var f := Tries.Hash(H, Sub(t, k, m));
            Concludes(H, proof, Tries.Hash(H, t), k,
              Failure(if f in proof then HashMismatch(k[..m], f, proof[f].Hash(H)) else MissingNode(k[..m], f)))
  {
    hide Walk, Canonical, NoCollision, AllChecked, Checked, Boundary, Sub;
    assert k[0..] == k;
    ShortWalk(H, t, proof, k, 0, m, m + 1);
    assert k[..0 + m] == k[..m];
    assert Walk(H, proof, k, 0, Tries.Hash(H, t), m + 1).Some?;
  }

  /** If there is no such node the key's value is proved, and only then. */
  lemma {:induction false} ProvenExactly(H: StarkHash, t: Trie, proof: MultiProof, k: Bits)
    requires Canonical(t, |k|) && NoCollision(H, t, proof)
    ensures Concludes(H, proof, Tries.Hash(H, t), k, Success(if Lookup(t, k).Some? then Lookup(t, k).value else 0))
            <==> AllChecked(H, t, proof, k, |k|)
  {
    var root, proven: Verdict := Tries.Hash(H, t), Success(ProvenValue(t, k));
    if AllChecked(H, t, proof, k, |k|) {
      hide Walk, Canonical, NoCollision, AllChecked;
      assert k[0..] == k;
      CheckedWalk(H, t, proof, k, 0, |k| + 1);
      assert Walk(H, proof, k, 0, root, |k| + 1) == Some(proven);
    } else {
      var m: nat :| m < |k| && Boundary(t, k, m) && !Checked(H, proof, Tries.Hash(H, Sub(t, k, m)));
      hide Walk, Canonical, NoCollision, Concludes, Boundary, Sub, Checked;
      var first := LeastUnchecked(H, t, proof, k, m);
      FirstShortfall(H, t, proof, k, first);
      if Concludes(H, proof, root, k, proven) {
        var f := Tries.Hash(H, Sub(t, k, first));
        VerdictUnique(H, proof, root, k, proven, Failure(Shortfall(H, proof, k[..first], f)));
      }
    }
  }

  lemma {:induction false} LeastUnchecked(H: StarkHash, t: Trie, proof: MultiProof, k: Bits, m: nat)
    returns (first: nat)
    requires Boundary(t, k, m) && !Checked(H, proof, Tries.Hash(H, Sub(t, k, m)))
    ensures first <= m && Boundary(t, k, first) && !Checked(H, proof, Tries.Hash(H, Sub(t, k, first)))
    ensures AllChecked(H, t, proof, k, first)
    decreases m
  {
    if AllChecked(H, t, proof, k, m) {
      first := m;
    } else {
      var i: nat :| i < m && Boundary(t, k, i) && !Checked(H, proof, Tries.Hash(H, Sub(t, k, i)));
      first := LeastUnchecked(H, t, proof, k, i);
    }
  }

  // ----- what a failure says of any proof -----

  lemma {:induction false} FailingWalk(H: StarkHash, proof: MultiProof, k: Bits, pos: nat, f: Felt, n: nat)
    requires pos <= |k| && Walk(H, proof, k, pos, f, n).Some? && Walk(H, proof, k, pos, f, n).value.Failure?
    ensures match Walk(H, proof, k, pos, f, n).value.error
            case MissingNode(p, g) => p < k && pos <= |p| && g !in proof
            case HashMismatch(p, g, computed) => p < k && pos <= |p| && g in proof && computed == proof[g].Hash(H) != g
            case _ => false
    decreases n
  {
    hide Walk;
    WalkOne(H, proof, k, pos, f, n);
    match StepFrom(H, proof, k, pos, f)
    case Done(_) =>
    case Go(pos', f') => FailingWalk(H, proof, k, pos', f', n - 1);
  }

  /** Of any map, root and key: a node reported missing is missing, a hash reported wrong is that of the entry and not
      the one looked for, and where it is reported the key goes on. */
  lemma {:induction false} FailureMeans(H: StarkHash, proof: MultiProof, root: Felt, k: Bits, error: VerificationError)
    requires Concludes(H, proof, root, k, Failure(error))
    ensures match error
            case MissingNode(p, f) => p < k && f !in proof
            case HashMismatch(p, f, computed) => p < k && f in proof && computed == proof[f].Hash(H) != f
            case _ => false
  {
    hide Walk;
    var n: nat :| Walk(H, proof, k, 0, root, n) == Some(Failure(error));
    FailingWalk(H, proof, k, 0, root, n);
  }

  /** A proof of the trie's own nodes that has every node on the key's way proves the key's value. */
  lemma {:induction false} Completeness(H: StarkHash, t: Trie, proof: MultiProof, k: Bits)
    requires Canonical(t, |k|) && Unambiguous(H, t) && Honest(H, t, proof) && Covers(H, t, k, |k|, proof)
    ensures Concludes(H, proof, Tries.Hash(H, t), k, Success(ProvenValue(t, k)))
  {
    hide Walk, Canonical, Boundary, Sub;
    assert NoCollision(H, t, proof);
    forall m: nat | m < |k| && Boundary(t, k, m) ensures Checked(H, proof, Tries.Hash(H, Sub(t, k, m))) {
      var f := Tries.Hash(H, Sub(t, k, m));
      HasNodeHash(H, t, f, proof[f]);
    }
    hide NoCollision, Honest, Covers;
    ProvenExactly(H, t, proof, k);
  }

  /** The empty trie has no proofs: its root hash is zero, and unless the map has a node that hashes to zero under zero,
      the check fails at the first step, for want of a node or for its hash. */
  lemma {:induction false} EmptyTrieUnproven(H: StarkHash, proof: MultiProof, k: Bits, verdict: Verdict)
    requires k != [] && (0 in proof ==> proof[0].Hash(H) != 0)
    ensures Concludes(H, proof, RootHash(H, None), k, verdict) <==>
              verdict == Failure(if 0 in proof then HashMismatch([], 0, proof[0].Hash(H)) else MissingNode([], 0))
  {
    var failure: Verdict :=
      Failure(if 0 in proof then HashMismatch([], 0, proof[0].Hash(H)) else MissingNode([], 0));
    assert Walk(H, proof, k, 0, 0, 1) == Some(failure);
    assert Concludes(H, proof, 0, k, failure);
    if Concludes(H, proof, 0, k, verdict) { VerdictUnique(H, proof, 0, k, verdict, failure); }
  }

  /** The hash is that of a node on the way of one of the first n keys. */
  ghost predicate OnSomeWay(H: StarkHash, t: Trie, keys: seq<Bits>, n: nat, f: Felt)
    requires n <= |keys|
  {
    exists i :: 0 <= i < n && OnWay(H, t, keys[i], f)
  }

  /** Checking the key with the proof against the tree's root hash gives the tree's value of it. */
  ghost predicate Proves(tree: MerkleTree, proof: MultiProof, key: Bits)
    requires tree.Root().Some?
    reads tree
  {
    Concludes(tree.H, proof, Tries.RootHash(tree.H, tree.Root()), key, Success(ProvenValue(tree.Root().value, key)))
  }

  /** Seeks the keys one after another with a visitor that records every node newly reached. Whatever the order of the
      keys, verifying the proof against the root hash gives the value of each of them. */
  method GetMultiProof(tree: MerkleTree, db: KeyValueDB, keys: seq<Bits>) returns (r: Result<MultiProof, StorageError>)
    requires tree.Sound(db.store)
    modifies tree`rootNode, tree`nodes, tree`nextKey, tree`shape
    ensures tree.Sound(db.store) && tree.Root() == old(tree.Root()) && (old(tree.Hashed()) ==> tree.Hashed())
    ensures r.Success? <==> forall i :: 0 <= i < |keys| ==> |keys[i]| == tree.maxHeight
    ensures r.Failure? ==>
              exists i :: 0 <= i < |keys| && |keys[i]| != tree.maxHeight
                && r.error == KeyLength(tree.maxHeight, |keys[i]|)
                && forall j :: 0 <= j < i ==> |keys[j]| == tree.maxHeight
    ensures old(tree.Hashed()) && tree.Root().Some? && r.Success? ==>
              && Honest(tree.H, tree.Root().value, r.value)
              && (forall i :: 0 <= i < |keys| ==> Covers(tree.H, tree.Root().value, keys[i], |keys[i]|, r.value))
              && forall f :: f in r.value ==> OnSomeWay(tree.H, tree.Root().value, keys, |keys|, f)
    ensures old(tree.Hashed()) && tree.Root().Some? && r.Success? && Unambiguous(tree.H, tree.Root().value) ==>
              forall i :: 0 <= i < |keys| ==> Proves(tree, r.value, keys[i])
    ensures tree.Root().None? && r.Success? ==> r.value == map[]
    ensures if keys == [] then tree.RootMark() == old(tree.RootMark()) else r.Success? ==> tree.RootMark().Some?
  {
    hide Covers, Honest, OnWay, Unambiguous, Concludes, TreeInv, Typed, Canonical, Tip, OnTheWay;
    var visitor := new ProofVisitor();
    var iter := new MerkleTreeIterator(tree, db);
    StartRecording(iter, visitor);
    ghost var hashed := tree.Hashed();
    for j := 0 to |keys|
      invariant tree.Sound(db.store) && tree.Root() == old(tree.Root())
      invariant iter.AtRest() && (iter.last.Some? ==> |iter.last.value| == tree.maxHeight)
      invariant hashed ==> tree.Hashed() && iter.Recording(visitor)
      invariant forall i :: 0 <= i < j ==> |keys[i]| == tree.maxHeight
      invariant hashed && tree.Root().Some? ==>
                  forall i :: 0 <= i < j ==> Covers(tree.H, tree.Root().value, keys[i], |keys[i]|, visitor.proof)
      invariant hashed && tree.Root().Some? ==>
                  forall f :: f in visitor.proof ==> OnSomeWay(tree.H, tree.Root().value, keys, j, f)
      invariant tree.Root().None? ==> visitor.proof == map[]
      invariant if j == 0 then iter.last.None? && tree.RootMark() == old(tree.RootMark()) else tree.RootMark().Some?
    {
      var key := keys[j];
      if |key| != tree.maxHeight {
        return Failure(KeyLength(tree.maxHeight, |key|));
      }
      ghost var before := visitor.proof;
      iter.TraverseTo(visitor, key);
      if hashed && tree.Root().Some? {
        forall i | 0 <= i < j ensures Covers(tree.H, tree.Root().value, keys[i], |keys[i]|, visitor.proof) {
          CoversMore(tree.H, tree.Root().value, keys[i], |keys[i]|, before, visitor.proof);
        }
      }
    }
    if hashed && tree.Root().Some? {
      InvCanonical(tree.H, tree.maxHeight, tree.shape.value, tree.rootNode, tree.Arena(db.store), tree.nextKey);
      if Unambiguous(tree.H, tree.Root().value) {
        forall i | 0 <= i < |keys|
          ensures Proves(tree, visitor.proof, keys[i])
        {
          Completeness(tree.H, tree.Root().value, visitor.proof, keys[i]);
        }
      }
    }
    return Success(visitor.proof);
  }

  lemma {:induction false} CoversMore(H: StarkHash, t: Trie, k: Bits, n: nat, proof: MultiProof, proof': MultiProof)
    requires Covers(H, t, k, n, proof) && proof.Keys <= proof'.Keys
    ensures Covers(H, t, k, n, proof')
  {
    assert forall f :: f in proof ==> f in proof.Keys;
  }

  lemma {:induction false} StartRecording(iter: MerkleTreeIterator, visitor: ProofVisitor)
    requires iter.last.None? && visitor.proof == map[]
    ensures iter.Recording(visitor)
  {
  }

  /** Generates a proof of the keys and verifies it against the tree's own root hash, which is there once a node has
      been visited; for no keys it has to be there already. With right hashes that do not collide every key is proved.
      */
  method ProveAndVerify(tree: MerkleTree, db: KeyValueDB, keys: seq<Bits>)
    returns (r: Result<seq<Verdict>, StorageError>)
    requires tree.Sound(db.store)
    modifies tree`rootNode, tree`nodes, tree`nextKey, tree`shape
    ensures tree.Sound(db.store) && tree.Root() == old(tree.Root()) && (old(tree.Hashed()) ==> tree.Hashed())
    ensures r.Success? <==>
              && (forall i :: 0 <= i < |keys| ==> |keys[i]| == tree.maxHeight)
              && (keys != [] || old(tree.RootMark()).Some?)
    ensures r.Success? && old(tree.Hashed()) && tree.Root().Some? && Unambiguous(tree.H, tree.Root().value) ==>
              && |r.value| == |keys|
              && forall i :: 0 <= i < |keys| ==> r.value[i] == Success(ProvenValue(tree.Root().value, keys[i]))
    ensures r.Success? && tree.Root().None? ==>
              |r.value| == |keys| && forall i :: 0 <= i < |keys| ==> r.value[i] == Failure(MissingNode([], 0))
  {
    hide Covers, Honest, Unambiguous, Concludes, TreeInv, Typed, Canonical, Walk, Ends, Coherent, TopHash;
    ghost var proves := tree.Hashed() && tree.Root().Some? && Unambiguous(tree.H, tree.Root().value);
    var proof :- GetMultiProof(tree, db, keys);
    var root :- tree.RootHash(db);
    var results := VerifyProof(tree.H, proof, root, keys, tree.maxHeight);
    if proves {
      ghost var t := tree.Root().value;
      ghost var verdicts := seq(|keys|, i requires 0 <= i < |keys| => Success(ProvenValue(t, keys[i])));
      forall i | 0 <= i < |keys| ensures Concludes(tree.H, proof, root, keys[i], verdicts[i]) {
        assert Proves(tree, proof, keys[i]);
      }
      ConcludeAll(tree.H, proof, root, keys, verdicts, tree.maxHeight, results);
    }
    if tree.Root().None? {
      HeightOf(tree, db);
      forall i | 0 <= i < |keys| ensures Concludes(tree.H, proof, root, keys[i], Failure(MissingNode([], 0))) {
        EmptyTrieUnproven(tree.H, proof, keys[i], Failure(MissingNode([], 0)));
      }
      ConcludeAll(tree.H, proof, root, keys, seq(|keys|, i => Failure(MissingNode([], 0))), tree.maxHeight, results);
    }
    return Success(results);
  }

  lemma {:induction false} HeightOf(tree: MerkleTree, db: KeyValueDB)
    requires tree.Sound(db.store)
    ensures tree.maxHeight >= 1
  {
  }

  /** Where a verdict is known for every key, these are the results. */
  lemma {:induction false} ConcludeAll(H: StarkHash, proof: MultiProof, root: Felt, keys: seq<Bits>,
          verdicts: seq<Verdict>, height: nat, results: seq<Verdict>)
    requires |verdicts| == |keys| && |results| <= |keys|
    requires forall i :: 0 <= i < |keys| ==> |keys[i]| == height && Concludes(H, proof, root, keys[i], verdicts[i])
    requires forall i :: 0 <= i < |results| ==> Concludes(H, proof, root, keys[i], results[i])
    requires |results| < |keys| ==> !Ends(H, proof, root, keys[|results|])
    ensures results == verdicts
  {
    hide Concludes, Ends;
    if |results| < |keys| {
      ConcludesEnds(H, proof, root, keys[|results|], verdicts[|results|]);
    }
    forall i | 0 <= i < |keys| ensures results[i] == verdicts[i] {
      VerdictUnique(H, proof, root, keys[i], results[i], verdicts[i]);
    }
  }

  lemma {:induction false} ConcludesEnds(H: StarkHash, proof: MultiProof, root: Felt, k: Bits, verdict: Verdict)
    requires Concludes(H, proof, root, k, verdict)
    ensures Ends(H, proof, root, k)
  {
  }
}
