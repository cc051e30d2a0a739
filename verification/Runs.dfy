/** Whole runs of writes and commits: when trie and tables say what was written, and what the root hash depends on. */
module Runs {
  import opened Wrappers
  import opened BitStrings
  import opened Felts
  import opened PathCodec
  import opened Nodes
  import opened Tries
  import opened TreeState
  import opened Editing
  import HashLaws

  datatype Step = Write(key: Bits, value: Felt) | Commit | Seek(key: Bits) | Prove(keys: seq<Bits>)

  /** A tree and its database as far as keys and values go. */
  datatype World = World(st: State, db: Database)

  const EMPTY: World := World(State(None, map[]), map[])

  /** One step, as the methods of the tree over its database perform it; a key of the wrong length is refused. Seeks and
      proofs load nodes and fill in hashes, which changes no key and no value. */
  ghost predicate StepTo(w: World, step: Step, w': World, height: nat) {
    match step
    case Write(key, value) =>
      w' == if |key| == height then World(Update(w.st, w.db, key, value), w.db) else w
    case Commit =>
      && w'.st == State(w.st.root, map[]) && Typed(w'.db, height)
      && forall key: Bits :: View(map[], w'.db, key) == View(w.st.cache, w.db, key)
    case Seek(_) => w' == w
    case Prove(_) => w' == w
  }

  ghost predicate IsRun(ws: seq<World>, steps: seq<Step>, height: nat) {
    && |ws| == |steps| + 1 && ws[0] == EMPTY
    && forall i :: 0 <= i < |steps| ==> StepTo(ws[i], steps[i], ws[i + 1], height)
  }

  // ----- presence: always right -----

  lemma {:induction false} StepInv(w: World, step: Step, w': World, height: nat)
    requires StateInv(w.st, w.db, height) && StepTo(w, step, w', height)
    ensures StateInv(w'.st, w'.db, height)
  {
    hide FlatInv, CanonicalRoot, Update, View, Typed;
    match step
    case Write(key, value) => if |key| == height { UpdateInv(w.st, w.db, height, key, value); }
    case Commit => CommittedInv(w.st.root, w.st.cache, w.db, w'.db, height);
    case _ =>
  }

  lemma {:induction false} CommittedInv(root: Option<Trie>, cache: Overlay, db: Database, db': Database, height: nat)
    requires FlatInv(root, cache, db, height) && Typed(db', height)
    requires forall key: Bits :: View(map[], db', key) == View(cache, db, key)
    ensures FlatInv(root, map[], db', height)
  {
    hide View, Typed, Find;
    forall key: Bits | |key| == height ensures KeyAgrees(root, map[], db', key) {
      assert KeyAgrees(root, cache, db, key);
      assert View(map[], db', key) == View(cache, db, key);
    }
  }

  lemma {:induction false} EmptyInv(height: nat)
    requires 1 <= height <= 251
    ensures StateInv(EMPTY.st, EMPTY.db, height)
  {
  }

  /** In every state of every run the trie is canonical and has exactly the keys that are in view. */
  lemma {:induction false} RunInv(ws: seq<World>, steps: seq<Step>, height: nat, i: nat)
    requires IsRun(ws, steps, height) && 1 <= height <= 251 && i < |ws|
    ensures StateInv(ws[i].st, ws[i].db, height)
  {
    if i == 0 {
      EmptyInv(height);
    } else {
      RunInv(ws, steps, height, i - 1);
      StepInv(ws[i - 1], steps[i - 1], ws[i], height);
    }
  }

  // ----- values: right exactly when no guard fails -----

  type Content = map<Bits, Felt>

  /** The plain map a sequence of writes amounts to. */
  function Written(m: Content, step: Step, height: nat): Content {
    match step
    case Commit => m
    case Seek(_) => m
    case Prove(_) => m
    case Write(key, value) => if |key| != height then m else if value == 0 then m - {key} else m[key := value]
  }

  function Contents(steps: seq<Step>, height: nat): Content {
    if steps == [] then map[] else Written(Contents(steps[..|steps| - 1], height), steps[|steps| - 1], height)
  }

  function Value(m: Content, key: Bits): Option<Felt> {
    if key in m then Some(m[key]) else None
  }

  /** Trie and view both say what was written. */
  ghost predicate Right(w: World, m: Content, height: nat) {
    forall key: Bits :: |key| == height ==>
      View(w.st.cache, w.db, key) == Value(m, key) && Find(w.st.root, key) == Value(m, key)
  }

  /** The write is not one of those that set takes a short cut for and should not: replacing a value set earlier in the
      same window by another one, or setting a removed key back to its committed value. */
  predicate Regular(w: World, step: Step, height: nat) {
    step.Write? && |step.key| == height && step.value != 0 ==>
      var b := BitsliceToBytes(step.key);
      && (b in w.st.cache && w.st.cache[b].Insert? ==> w.st.cache[b].value == step.value)
      && (b in w.st.cache && w.st.cache[b].Remove? ==> FlatGet(w.db, step.key) != Some(step.value))
  }

  ghost predicate AllRegular(ws: seq<World>, steps: seq<Step>, height: nat)
    requires |ws| == |steps| + 1
  {
    forall i :: 0 <= i < |steps| ==> Regular(ws[i], steps[i], height)
  }

  /** After a write the view shows what was written, unless the key was removed in this window and is set back to its
      committed value: then it stays removed. Other keys do not change. */
  lemma {:induction false} WriteView(w: World, key: Bits, value: Felt, height: nat, q: Bits)
    requires StateInv(w.st, w.db, height) && |key| == height && |q| == height
    ensures var b := BitsliceToBytes(key);
            var kept := value != 0 && b in w.st.cache && w.st.cache[b].Remove? && FlatGet(w.db, key) == Some(value);
            View(Update(w.st, w.db, key, value).cache, w.db, q) ==
              if q != key then View(w.st.cache, w.db, q) else if value == 0 || kept then None else Some(value)
  {
    hide BitsliceToBytes, Lookup, Canonical, Typed, OverlayTyped;
    assert PathOf(BitsliceToBytes(key)) == key && PathOf(BitsliceToBytes(q)) == q;
    assert KeyAgrees(w.st.root, w.st.cache, w.db, key);
  }

  /** After a write the trie has what was written, unless the key was set to another value earlier in this window and
      has that one still, or was removed and is set back to its committed value. Other keys do not change. */
  lemma {:induction false} WriteTrie(w: World, key: Bits, value: Felt, height: nat, q: Bits)
    requires StateInv(w.st, w.db, height) && |key| == height && |q| == height
    ensures var b := BitsliceToBytes(key);
            var cached := value != 0 && b in w.st.cache && w.st.cache[b].Insert?;
            var committed := value != 0 && FlatGet(w.db, key) == Some(value);
            Find(Update(w.st, w.db, key, value).root, q) ==
              if q != key || cached || committed then Find(w.st.root, q) else if value == 0 then None else Some(value)
  {
    hide BitsliceToBytes, Lookup, Canonical, Typed, OverlayTyped, TrieInsert, TrieDelete, FlatGet;
    assert KeyAgrees(w.st.root, w.st.cache, w.db, key);
    if value != 0 {
      InsertRootLaws(w.st.root, key, value);
    } else if w.st.root.Some? {
      DeleteLaws(w.st.root.value, key);
    }
  }

  lemma {:induction false} OtherKeyRight(w: World, m: Content, key: Bits, value: Felt, height: nat, q: Bits)
    requires StateInv(w.st, w.db, height) && |key| == height && Right(w, m, height) && |q| == height && q != key
    ensures var w' := World(Update(w.st, w.db, key, value), w.db);
            var m' := Written(m, Write(key, value), height);
            View(w'.st.cache, w'.db, q) == Value(m', q) && Find(w'.st.root, q) == Value(m', q)
  {
    hide View, Find, Update, StateInv;
    WriteView(w, key, value, height, q);
    WriteTrie(w, key, value, height, q);
  }

  /** For the key itself, trie and view are right after the write exactly when it is a regular one. */
  lemma {:induction false} OwnKeyRight(w: World, m: Content, key: Bits, value: Felt, height: nat)
    requires StateInv(w.st, w.db, height) && |key| == height && Right(w, m, height)
    ensures var w' := World(Update(w.st, w.db, key, value), w.db);
            var m' := Written(m, Write(key, value), height);
            View(w'.st.cache, w'.db, key) == Value(m', key) && Find(w'.st.root, key) == Value(m', key)
            <==> Regular(w, Write(key, value), height)
  {
    hide Find, Update, StateInv, BitsliceToBytes, FlatGet;
    WriteView(w, key, value, height, key);
    WriteTrie(w, key, value, height, key);
    assert View(w.st.cache, w.db, key) == Value(m, key) && Find(w.st.root, key) == Value(m, key);
  }

  /** Where trie and view are right, one step keeps them so exactly when it is regular. */
  lemma {:induction false} StepExact(w: World, m: Content, step: Step, w': World, height: nat)
    requires StateInv(w.st, w.db, height) && Right(w, m, height) && StepTo(w, step, w', height)
    ensures Right(w', Written(m, step, height), height) <==> Regular(w, step, height)
  {
    hide Find, Update, StateInv, View, BitsliceToBytes;
    match step
    case Commit =>
    case Seek(_) =>
    case Prove(_) =>
    case Write(key, value) =>
      if |key| == height {
        forall q: Bits | |q| == height && q != key
          ensures View(w'.st.cache, w'.db, q) == Value(Written(m, step, height), q)
          ensures Find(w'.st.root, q) == Value(Written(m, step, height), q)
        {
          OtherKeyRight(w, m, key, value, height, q);
        }
        OwnKeyRight(w, m, key, value, height);
      }
  }

  lemma {:induction false} ContentsStep(steps: seq<Step>, i: nat, height: nat)
    requires i < |steps|
    ensures Contents(steps[..i + 1], height) == Written(Contents(steps[..i], height), steps[i], height)
  {
    assert steps[..i + 1][..i] == steps[..i];
  }

  /** As long as every step so far was regular, trie and view say what was written. */
  lemma {:induction false} RegularRun(ws: seq<World>, steps: seq<Step>, height: nat, i: nat)
    requires IsRun(ws, steps, height) && 1 <= height <= 251 && i < |ws|
    requires forall j :: 0 <= j < i ==> Regular(ws[j], steps[j], height)
    ensures Right(ws[i], Contents(steps[..i], height), height)
  {
    hide Regular, StateInv, View, Find, Contents;
    if i == 0 {
      EmptyRight(steps, height);
    } else {
      RegularRun(ws, steps, height, i - 1);
      RunInv(ws, steps, height, i - 1);
      ContentsStep(steps, i - 1, height);
      StepExact(ws[i - 1], Contents(steps[..i - 1], height), steps[i - 1], ws[i], height);
    }
  }

  lemma {:induction false} EmptyRight(steps: seq<Step>, height: nat)
    ensures Right(EMPTY, Contents(steps[..0], height), height)
  {
  }

  /** Trie and view say what was written in every state of a run exactly when every step of it is regular. */
  lemma {:induction false} RunExact(ws: seq<World>, steps: seq<Step>, height: nat)
    requires IsRun(ws, steps, height) && 1 <= height <= 251
    ensures (forall i :: 0 <= i < |ws| ==> Right(ws[i], Contents(steps[..i], height), height))
            <==> AllRegular(ws, steps, height)
  {
    hide Regular, StateInv, Right, Contents;
    if AllRegular(ws, steps, height) {
      forall i | 0 <= i < |ws| ensures Right(ws[i], Contents(steps[..i], height), height) {
        RegularRun(ws, steps, height, i);
      }
    }
    if forall i :: 0 <= i < |ws| ==> Right(ws[i], Contents(steps[..i], height), height) {
      forall i | 0 <= i < |steps| ensures Regular(ws[i], steps[i], height) {
        assert Right(ws[i], Contents(steps[..i], height), height)
          && Right(ws[i + 1], Contents(steps[..i + 1], height), height);
        RunInv(ws, steps, height, i);
        ContentsStep(steps, i, height);
        StepExact(ws[i], Contents(steps[..i], height), steps[i], ws[i + 1], height);
      }
    }
  }

  // ----- regular by the steps alone -----

  /** What the database holds after the steps: the content at the last commit. */
  function Committed(steps: seq<Step>, height: nat): Content {
    if steps == [] then map[]
    else if steps[|steps| - 1].Commit? then Contents(steps, height)
    else Committed(steps[..|steps| - 1], height)
  }

  /** The key has been in the content at some time since the last commit. */
  predicate Touched(steps: seq<Step>, key: Bits, height: nat) {
    || key in Contents(steps, height)
    || (steps != [] && !steps[|steps| - 1].Commit? && Touched(steps[..|steps| - 1], key, height))
  }

  /** With c the content at the last commit and m the content now: a write of a value is regular if the key has its
      committed value or absence still, has just that new value, or was removed and does not get its committed value. */
  predicate RegularStep(c: Content, m: Content, step: Step, height: nat) {
    step.Write? && |step.key| == height && step.value != 0 && Value(m, step.key) != Value(c, step.key) ==>
      if step.key in m then m[step.key] == step.value else c[step.key] != step.value
  }

  predicate StepsRegular(steps: seq<Step>, height: nat) {
    forall i :: 0 <= i < |steps| ==>
      RegularStep(Committed(steps[..i], height), Contents(steps[..i], height), steps[i], height)
  }

  function Cached(cache: Overlay, key: Bits): Option<InsertOrRemove<Felt>> {
    if BitsliceToBytes(key) in cache then Some(cache[BitsliceToBytes(key)]) else None
  }

  /** What the overlay has of a key: the value if it differs from the committed one, a removal if the key has been there
      since the commit and is not now. */
  function CachedFor(c: Content, m: Content, key: Bits, touched: bool): Option<InsertOrRemove<Felt>> {
    if key in m then (if Value(c, key) == Some(m[key]) then None else Some(InsertOrRemove.Insert(m[key])))
    else if touched then Some(InsertOrRemove.Remove) else None
  }

  /** The flat table holds the content of the last commit, and the overlay has what was changed since and nothing
      else. */
  ghost predicate WindowExact(w: World, steps: seq<Step>, height: nat) {
    forall key: Bits :: |key| == height ==>
      var c, m := Committed(steps, height), Contents(steps, height);
      && FlatGet(w.db, key) == Value(c, key)
      && Cached(w.st.cache, key) == CachedFor(c, m, key, Touched(steps, key, height))
  }

  lemma {:induction false} CommittedTouched(steps: seq<Step>, key: Bits, height: nat)
    requires key in Committed(steps, height)
    ensures Touched(steps, key, height)
  {
    if steps != [] && !steps[|steps| - 1].Commit? { CommittedTouched(steps[..|steps| - 1], key, height); }
  }

  /** In a state whose overlay is exact, a step is regular exactly when it is by the contents alone. */
  lemma {:induction false} RegularByContents(w: World, steps: seq<Step>, step: Step, height: nat)
    requires WindowExact(w, steps, height)
    ensures Regular(w, step, height) <==>
              RegularStep(Committed(steps, height), Contents(steps, height), step, height)
  {
    hide Contents, Committed, Touched, FlatGet, BitsliceToBytes;
    if step.Write? && |step.key| == height {
      var c, m := Committed(steps, height), Contents(steps, height);
      if step.key in c { CommittedTouched(steps, step.key, height); }
      assert FlatGet(w.db, step.key) == Value(c, step.key);
      assert Cached(w.st.cache, step.key) == CachedFor(c, m, step.key, Touched(steps, step.key, height));
    }
  }

  lemma {:induction false} OneMore(steps: seq<Step>, step: Step, key: Bits, height: nat)
    ensures var next := steps + [step];
            && Contents(next, height) == Written(Contents(steps, height), step, height)
            && Committed(next, height) == (if step.Commit? then Contents(next, height) else Committed(steps, height))
            && (Touched(next, key, height) <==>
                  key in Contents(next, height) || (!step.Commit? && Touched(steps, key, height)))
  {
    assert (steps + [step])[..|steps|] == steps;
  }

  lemma {:induction false} CachedAfter(w: World, key: Bits, value: Felt, height: nat, q: Bits)
    requires |key| == height && |q| == height && 1 <= height <= 251
    ensures q != key ==> Cached(Update(w.st, w.db, key, value).cache, q) == Cached(w.st.cache, q)
    ensures var e, e' := Cached(w.st.cache, key), Cached(Update(w.st, w.db, key, value).cache, key);
            if value == 0 then
              e' == if View(w.st.cache, w.db, key).None? || w.st.root.None? then e else Some(InsertOrRemove.Remove)
            else e' == if FlatGet(w.db, key) == Some(value) && !(e.Some? && e.value.Insert?) then e
                       else Some(InsertOrRemove.Insert(value))
  {
    hide FlatGet, Lookup, TrieDelete, RootInsert, BitsliceToBytes;
    assert PathOf(BitsliceToBytes(key)) == key && PathOf(BitsliceToBytes(q)) == q;
  }

  /** A regular step from a right state with an exact overlay leaves the overlay exact. */
  lemma {:induction false} WindowStep(w: World, steps: seq<Step>, step: Step, w': World, height: nat, key: Bits)
    requires StateInv(w.st, w.db, height) && Right(w, Contents(steps, height), height) && WindowExact(w, steps, height)
    requires StepTo(w, step, w', height) && Regular(w, step, height) && |key| == height
    ensures var next := steps + [step];
            var c, m := Committed(next, height), Contents(next, height);
            && FlatGet(w'.db, key) == Value(c, key)
            && Cached(w'.st.cache, key) == CachedFor(c, m, key, Touched(next, key, height))
  {
    hide Contents, Committed, Touched, FlatGet, BitsliceToBytes, Find, Update, Typed, CanonicalRoot, FlatInv;
    OneMore(steps, step, key, height);
    var c, m := Committed(steps, height), Contents(steps, height);
    assert View(w.st.cache, w.db, key) == Value(m, key) && Find(w.st.root, key) == Value(m, key);
    assert FlatGet(w.db, key) == Value(c, key);
    assert Cached(w.st.cache, key) == CachedFor(c, m, key, Touched(steps, key, height));
    match step
    case Commit => assert View(map[], w'.db, key) == View(w.st.cache, w.db, key);
    case Seek(_) =>
    case Prove(_) =>
    case Write(k, value) =>
      if |k| == height {
        CachedAfter(w, k, value, height, key);
        if key == k { OwnWindow(w, steps, key, value, height); }
      }
  }

  /** The written key itself. */
  lemma {:induction false} OwnWindow(w: World, steps: seq<Step>, key: Bits, value: Felt, height: nat)
    requires StateInv(w.st, w.db, height) && |key| == height && Regular(w, Write(key, value), height)
    requires Find(w.st.root, key) == View(w.st.cache, w.db, key) == Value(Contents(steps, height), key)
    requires FlatGet(w.db, key) == Value(Committed(steps, height), key)
    requires Cached(w.st.cache, key) ==
               CachedFor(Committed(steps, height), Contents(steps, height), key, Touched(steps, key, height))
    ensures var m' := Written(Contents(steps, height), Write(key, value), height);
            Cached(Update(w.st, w.db, key, value).cache, key) ==
              CachedFor(Committed(steps, height), m', key, key in m' || Touched(steps, key, height))
  {
    hide Committed, FlatGet, BitsliceToBytes, Update, Typed, CanonicalRoot, FlatInv;
    var c, m := Committed(steps, height), Contents(steps, height);
    CachedAfter(w, key, value, height, key);
    if key in c { CommittedTouched(steps, key, height); }
    if key in m { assert Touched(steps, key, height); }
  }

  /** In a regular run the overlay and the flat table are determined by the steps: the flat table has the content of the
      last commit, the overlay what was changed since. */
  lemma {:induction false} OverlayExact(ws: seq<World>, steps: seq<Step>, height: nat, i: nat)
    requires IsRun(ws, steps, height) && 1 <= height <= 251 && i < |ws|
    requires forall j :: 0 <= j < i ==> Regular(ws[j], steps[j], height)
    ensures WindowExact(ws[i], steps[..i], height)
  {
    hide Regular, StateInv, Right, Contents, Committed, Touched, FlatGet, BitsliceToBytes;
    if i == 0 {
      EmptyWindow(steps, height);
    } else {
      OverlayExact(ws, steps, height, i - 1);
      RegularRun(ws, steps, height, i - 1);
      RunInv(ws, steps, height, i - 1);
      assert steps[..i - 1] + [steps[i - 1]] == steps[..i];
      assert StepTo(ws[i - 1], steps[i - 1], ws[i], height);
      hide StepTo;
      forall key: Bits | |key| == height
        ensures var c, m := Committed(steps[..i], height), Contents(steps[..i], height);
                && FlatGet(ws[i].db, key) == Value(c, key)
                && Cached(ws[i].st.cache, key) == CachedFor(c, m, key, Touched(steps[..i], key, height))
      {
        WindowStep(ws[i - 1], steps[..i - 1], steps[i - 1], ws[i], height, key);
      }
    }
  }

  lemma {:induction false} EmptyWindow(steps: seq<Step>, height: nat)
    ensures WindowExact(EMPTY, steps[..0], height)
  {
    assert steps[..0] == [];
  }

  /** Whether all steps of a run are regular can be read off the steps. */
  lemma {:induction false} RegularBySteps(ws: seq<World>, steps: seq<Step>, height: nat)
    requires IsRun(ws, steps, height) && 1 <= height <= 251
    ensures AllRegular(ws, steps, height) <==> StepsRegular(steps, height)
  {
    RegularUpTo(ws, steps, height, |steps|);
  }

  lemma {:induction false} RegularUpTo(ws: seq<World>, steps: seq<Step>, height: nat, n: nat)
    requires IsRun(ws, steps, height) && 1 <= height <= 251 && n <= |steps|
    ensures (forall i :: 0 <= i < n ==> Regular(ws[i], steps[i], height)) <==>
            (forall i :: 0 <= i < n ==>
               RegularStep(Committed(steps[..i], height), Contents(steps[..i], height), steps[i], height))
  {
    hide Regular, RegularStep, Contents, Committed, WindowExact;
    if n > 0 {
      RegularUpTo(ws, steps, height, n - 1);
      if forall i :: 0 <= i < n - 1 ==> Regular(ws[i], steps[i], height) {
        OverlayExact(ws, steps, height, n - 1);
        RegularByContents(ws[n - 1], steps[..n - 1], steps[n - 1], height);
      }
    }
  }

  /** Trie and view say what was written in every state of a run exactly when the steps are regular, which is a
      condition on the writes alone: where the last commit was, what was written since, and what is written now. */
  lemma {:induction false} RunExactBySteps(ws: seq<World>, steps: seq<Step>, height: nat)
    requires IsRun(ws, steps, height) && 1 <= height <= 251
    ensures (forall i :: 0 <= i < |ws| ==> Right(ws[i], Contents(steps[..i], height), height))
            <==> StepsRegular(steps, height)
  {
    hide Right, Contents, StepsRegular, Regular;
    RunExact(ws, steps, height);
    RegularBySteps(ws, steps, height);
  }

  // ----- what the root hash says -----

  /** Two worlds that are right about the same content have the same trie, hence the same root hash. */
  lemma {:induction false} SameContentSameRoot(w: World, w': World, m: Content, height: nat)
    requires StateInv(w.st, w.db, height) && StateInv(w'.st, w'.db, height) && Right(w, m, height)
             && Right(w', m, height)
    ensures w.st.root == w'.st.root
  {
    hide View, Lookup, Canonical, Typed;
    forall k: Bits | |k| == height ensures Find(w.st.root, k) == Find(w'.st.root, k) {
      assert Find(w.st.root, k) == Value(m, k) == Find(w'.st.root, k);
    }
    RootUnique(w.st.root, w'.st.root, height);
  }

  /** After regular steps the root hash is the commitment to the plain map they amount to, for every hash. */
  lemma {:induction false} RunCommitment(H: StarkHash, ws: seq<World>, steps: seq<Step>, height: nat)
    requires IsRun(ws, steps, height) && 1 <= height <= 251 && StepsRegular(steps, height)
    ensures RootHash(H, ws[|steps|].st.root) ==
              HashLaws.Commit(H, (k: Bits) => Value(Contents(steps, height), k), [], height).Hash(H)
  {
    hide Regular, Contents, StepsRegular, View, Canonical, FlatInv, HashLaws.Commit;
    assert steps[..|steps|] == steps;
    RegularBySteps(ws, steps, height);
    RegularRun(ws, steps, height, |steps|);
    RunInv(ws, steps, height, |steps|);
    var m := (k: Bits) => Value(Contents(steps, height), k);
    var root := ws[|steps|].st.root;
    forall k: Bits | |k| == height ensures m(k) == Find(root, k) { }
    HashLaws.RootHashIsCommitment(H, root, m, height);
  }

  /** History independence: regular runs that write the same content, in whatever order of inserts, deletes and commits,
      end with the same trie and the same root hash. */
  lemma {:induction false} HistoryIndependence(H: StarkHash, ws: seq<World>, steps: seq<Step>, ws': seq<World>,
          steps': seq<Step>, height: nat)
    requires IsRun(ws, steps, height) && IsRun(ws', steps', height) && 1 <= height <= 251
    requires StepsRegular(steps, height) && StepsRegular(steps', height)
    requires Contents(steps, height) == Contents(steps', height)
    ensures ws[|steps|].st.root == ws'[|steps'|].st.root
    ensures RootHash(H, ws[|steps|].st.root) == RootHash(H, ws'[|steps'|].st.root)
  {
    hide Regular, StateInv, Right, Contents, StepsRegular;
    assert steps[..|steps|] == steps && steps'[..|steps'|] == steps';
    RegularBySteps(ws, steps, height);
    RegularBySteps(ws', steps', height);
    RegularRun(ws, steps, height, |steps|);
    RegularRun(ws', steps', height, |steps'|);
    RunInv(ws, steps, height, |steps|);
    RunInv(ws', steps', height, |steps'|);
    SameContentSameRoot(ws[|steps|], ws'[|steps'|], Contents(steps, height), height);
  }

  lemma {:induction false} ContentLengths(steps: seq<Step>, height: nat)
    ensures forall k :: k in Contents(steps, height) ==> |k| == height
  {
    if steps != [] { ContentLengths(steps[..|steps| - 1], height); }
  }

  lemma {:induction false} SameRootSameContent(w: World, w': World, m: Content, m': Content, height: nat)
    requires Right(w, m, height) && Right(w', m', height) && w.st.root == w'.st.root
    requires forall k :: k in m || k in m' ==> |k| == height
    ensures m == m'
  {
    hide View, Find;
    forall k | k in m || k in m' ensures k in m && k in m' && m[k] == m'[k] {
      assert Value(m, k) == Find(w.st.root, k) == Value(m', k);
    }
  }

  /** The root hash commits to the content: if no hashes collide and no trie hashes to the zero of the empty one,
      regular runs end with the same root hash if and only if they wrote the same content. */
  lemma {:induction false} RootHashCommits(H: StarkHash, ws: seq<World>, steps: seq<Step>, ws': seq<World>,
          steps': seq<Step>, height: nat)
    requires IsRun(ws, steps, height) && IsRun(ws', steps', height) && 1 <= height <= 251
    requires StepsRegular(steps, height) && StepsRegular(steps', height)
    requires var t, t' := ws[|steps|].st.root, ws'[|steps'|].st.root;
             ClashFree(H, t, t') && (t.Some? ==> RootHash(H, t) != 0) && (t'.Some? ==> RootHash(H, t') != 0)
    ensures RootHash(H, ws[|steps|].st.root) == RootHash(H, ws'[|steps'|].st.root) <==>
              Contents(steps, height) == Contents(steps', height)
  {
    hide Regular, Right, Contents, ClashFree, Canonical, FlatInv, Tries.Hash, StepsRegular;
    if Contents(steps, height) == Contents(steps', height) {
      HistoryIndependence(H, ws, steps, ws', steps', height);
    }
    var w, w' := ws[|steps|], ws'[|steps'|];
    if RootHash(H, w.st.root) == RootHash(H, w'.st.root) {
      assert steps[..|steps|] == steps && steps'[..|steps'|] == steps';
      RegularBySteps(ws, steps, height);
      RegularBySteps(ws', steps', height);
      RegularRun(ws, steps, height, |steps|);
      RegularRun(ws', steps', height, |steps'|);
      RunInv(ws, steps, height, |steps|);
      RunInv(ws', steps', height, |steps'|);
      RootHashBinds(H, w.st.root, w'.st.root, height);
      ContentLengths(steps, height);
      ContentLengths(steps', height);
      SameRootSameContent(w, w', Contents(steps, height), Contents(steps', height), height);
    }
  }

  /** Setting an absent key and removing it again gives back the trie, split and collapse undoing each other. */
  lemma {:induction false} SetThenRemove(w: World, key: Bits, value: Felt, height: nat)
    requires StateInv(w.st, w.db, height) && |key| == height && View(w.st.cache, w.db, key).None?
    ensures Update(Update(w.st, w.db, key, value), w.db, key, 0).root == w.st.root
  {
    hide BitsliceToBytes, Typed, Canonical, Lookup, TrieInsert, TrieDelete, RootInsert, FlatGet;
    assert KeyAgrees(w.st.root, w.st.cache, w.db, key);
    var st1 := Update(w.st, w.db, key, value);
    UpdateInv(w.st, w.db, height, key, value);
    WriteView(w, key, value, height, key);
    if value != 0 && View(st1.cache, w.db, key).Some? {
      InsertThenDelete(w.st.root, key, value);
    }
  }

  // ----- what irregular writes do -----

  /** Two different values set in one window: the second is in view, but the trie, and with it the root hash, keeps
      the first. */
  lemma {:induction false} StaleLeaf(key: Bits, v: Felt, u: Felt)
    requires 0 < |key| <= 251 && v != 0 && u != 0 && v != u
    ensures var w := World(Update(Update(EMPTY.st, map[], key, v), map[], key, u), map[]);
            View(w.st.cache, w.db, key) == Some(u) && Find(w.st.root, key) == Some(v)
  {
    var height := |key|;
    var w1 := World(Update(EMPTY.st, map[], key, v), map[]);
    EmptyInv(height);
    WriteView(EMPTY, key, v, height, key);
    WriteTrie(EMPTY, key, v, height, key);
    UpdateInv(EMPTY.st, map[], height, key, v);
    WriteView(w1, key, u, height, key);
    WriteTrie(w1, key, u, height, key);
  }

  lemma {:induction false} RemovedIsCached(w: World, key: Bits, height: nat)
    requires StateInv(w.st, w.db, height) && |key| == height && View(w.st.cache, w.db, key).Some?
    ensures var b := BitsliceToBytes(key);
            var c := Update(w.st, w.db, key, 0).cache; b in c && c[b].Remove?
  {
    assert KeyAgrees(w.st.root, w.st.cache, w.db, key);
  }

  /** A value in view when a commit is made, removed and set again in the next window: in every run that has these three
      steps in a row, whatever came before, the key is gone after them from view and trie alike. */
  lemma {:induction false} ReinsertIsLost(ws: seq<World>, steps: seq<Step>, height: nat, n: nat, key: Bits, v: Felt)
    requires IsRun(ws, steps, height) && 1 <= height <= 251 && |key| == height && v != 0 && n + 3 <= |steps|
    requires steps[n] == Commit && steps[n + 1] == Write(key, 0) && steps[n + 2] == Write(key, v)
    requires View(ws[n].st.cache, ws[n].db, key) == Some(v)
    ensures View(ws[n + 3].st.cache, ws[n + 3].db, key) == None && Find(ws[n + 3].st.root, key) == None
  {
    hide StateInv, Update, BitsliceToBytes;
    RunInv(ws, steps, height, n + 1);
    RunInv(ws, steps, height, n + 2);
    assert StepTo(ws[n], steps[n], ws[n + 1], height);
    assert StepTo(ws[n + 1], steps[n + 1], ws[n + 2], height);
    assert StepTo(ws[n + 2], steps[n + 2], ws[n + 3], height);
    assert View(map[], ws[n + 1].db, key) == FlatGet(ws[n + 1].db, key) == Some(v);
    RemovedIsCached(ws[n + 1], key, height);
    hide View, FlatGet;
    WriteTrie(ws[n + 1], key, 0, height, key);
    WriteView(ws[n + 2], key, v, height, key);
    WriteTrie(ws[n + 2], key, v, height, key);
  }

  /** The shortest such run: the value is set, committed, removed and set again. */
  lemma {:induction false} LostReinsert(ws: seq<World>, key: Bits, v: Felt)
    requires 0 < |key| <= 251 && v != 0
    requires IsRun(ws, [Write(key, v), Commit, Write(key, 0), Write(key, v)], |key|)
    ensures View(ws[4].st.cache, ws[4].db, key) == None && Find(ws[4].st.root, key) == None
  {
    var steps := [Write(key, v), Commit, Write(key, 0), Write(key, v)];
    EmptyInv(|key|);
    assert StepTo(ws[0], steps[0], ws[1], |key|);
    WriteView(EMPTY, key, v, |key|, key);
    ReinsertIsLost(ws, steps, |key|, 1, key, v);
  }
}
