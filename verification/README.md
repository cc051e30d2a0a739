# bonsai-trie's Merkle-Patricia trie and trie log, modelled in Dafny

bonsai-trie keeps a Starknet binary Merkle-Patricia trie in a key-value database. Nodes are loaded lazily into an arena,
edited there, and written back by commits; every commit leaves a log of what it changed. This project models that
machinery in Dafny and proves what it is for.

- `Tries` is the meaning: a trie as a datatype, its key-value map, insertion and deletion by structural recursion, its
  root hash. Canonical tries of one height correspond one to one to their maps. `HashLaws` says what the root hash is without
  the trie: the commitment to the map as Starknet defines it, bit by bit on the tree of all keys, where no edges are.
- `Shapes`, `TreeState`, `Editing` and `Commits` say how arena, database, death row and overlay together represent one
  canonical trie, and how loading, splitting, collapsing and committing change that representation. A *shape* is a trie
  that also says of every node whether it lives in an arena slot or on disk.
- `MerkleTrie` has the classes: `MerkleTree`, whose methods mutate the arena, the root handle, the death row and the
  overlay; `MerkleTreeIterator`, the resumable seek; `ProofVisitor`. Each method is proved against the meaning: setting a
  key is `RootInsert` of the represented trie, deleting is `TrieDelete`, seeking and loading change nothing.
- `Changes` and `KeyValueDb` are the trie log: recording, serialising, reading back, retention and the undo of one commit.
- `MerkleTreesOverDb` joins tree and database; `Runs` and `Scenarios` are about whole sequences of operations.
- `ProofNodes` and `Proofs` are multi-proofs; `PathCodec` and `EdgeHashing` the byte encodings; `Nodes` and `Felts` the data.

The hash of the source's type parameter is an arbitrary function `H` of two field elements throughout. Nothing is assumed
of it except, where stated, that the nodes at hand do not collide.

Some things the source promises or suggests do not hold of its code. For each of them the model keeps the code as it is,
proves exactly when the promise holds; where that does not show failing inputs by itself, a lemma or method has some:

- Setting a key to two different values in one commit window updates the overlay but not the leaf in the trie, and setting a
  removed key back to its committed value leaves it removed (`src/trie/tree.rs:587-602`). `Runs.StepsRegular` is the condition,
  on the steps alone: what was in the content at the last commit, what is now, and what is written. `Runs.RunExactBySteps`
  says that trie and view are right in all states of a run if and only if its steps satisfy it, and `Runs.RunCommitment` that
  the root hash is then the commitment to what was written. Which keys are present in the trie is right in every run
  regardless (`Runs.RunInv`). `Runs.StaleLeaf` and `Runs.LostReinsert` are the failing runs.
- Edits do not clear cached hashes (`src/trie/tree.rs:212-225`, `637`, `724-725`). The condition is that no node which the
  key passes and which the edit lets live has a hash cached, or is still on disk, where all have one: `Tries.PassedBits` and
  `Tries.LastBranch` say how far these nodes reach for an insertion and a deletion. Nodes that a split or a collapse makes
  have no hash; the edge above an overwritten leaf and the parent edge that absorbs a collapse keep theirs. From right hashes
  an edit leads to right hashes if the condition holds or the trie stays the same, and, unless it leaves the hash of such a
  node the same, only then: that is part of the contracts of `Set` and `DeleteLeaf`. Where no hashes collide, no hash of a
  changed node stays the same, and the condition is an if-and-only-if (`Editing.KeptExactly`, from the binding of the root
  hash, `ProofNodes.HashBinds`). `Scenarios.SetAfterCommit` and `Scenarios.SetAfterProof` draw the consequence for a write
  after a commit or a proof, and `Scenarios.StaleRootHash` and `Scenarios.StaleByProof` return wrong root hashes. Cached
  hashes are right after every commit, and before the first commit as long as no proof has been made; seeks and proofs keep
  them right.
- A second write of a key within a window loses the record that the key was absent before (`src/changes.rs:24-27`);
  `Changes.RecordWrite` has the exact condition and `Changes.AddedThenChanged` the failing writes. A commit writes each key
  once.
- Reading a log back groups adjacent entries (`src/changes.rs:74-79`); `Changes.ReadBackExactly` says for which orders of the
  entries the batch comes back complete, and `Changes.TornInOrder` has a log in order whose batch does not. Undoing works for
  every order.
- `bytes_to_bitvec` inverts `bitslice_to_bytes` only for whole bytes (`src/trie/tree.rs:1131-1133`): `PathCodec.BitvecRoundTrip`.
- The death row key of a split edge omits the tree's identifier and is empty at the root (`src/trie/tree.rs:713-715`):
  `Nodes.SplitDeathKeyIsNodeKey` says when it is the key it stands for. For the one tree modelled here this is harmless,
  which is part of `Commits.CommitInv`.
- The proof check need not end on a proof with edges of no bits: it does on all roots and keys exactly when no chain of such
  edges with right hashes comes back to its start (`Proofs.Terminates`), and on a given root and key exactly when it does
  within a number of steps known beforehand (`Proofs.EndsWithin`). Against the root hash of a trie it ends if no node of the
  proof collides with one of the trie (`Proofs.Soundness`); `Proofs.EndlessCheck` has, for a hash with collisions, a trie and
  a proof of one entry on which it goes on forever.

## Model

| member | source | states |
|---|---|---|
| Tries.CanonicalUnique | src/trie/tree.rs:1011-1017 | two canonical tries (edges non-empty and maximal, no zero leaf) of one height with the same key-value map are the same trie |
| Tries.RootUnique | src/trie/tree.rs:51-57 | the same for possibly empty tries |
| Tries.InsertRootLaws | src/trie/tree.rs:610-755 | insertion keeps the trie canonical and changes its map at the inserted key only |
| Tries.DeleteLaws | src/trie/tree.rs:778-790 | deletion keeps the trie canonical, or empties it, and removes exactly the one key from its map |
| Tries.InsertThenDelete | src/trie/tree.rs:648-716 | for every canonical or empty trie and absent key, inserting and deleting the key gives back the same trie |
| Tries.DeleteThenInsert | src/trie/tree.rs:855-908 | for every canonical trie and present key, deleting the key and inserting it with its value gives back the same trie |
| Tries.NodeAtShort | src/trie/tree.rs:293-333 | every non-leaf node sits at a position shorter than the height |
| Nodes.FullMatch | src/trie/merkle_node.rs:202-214 | for a key that covers the edge, path_matches holds if and only if the edge's path is a prefix of the rest of the key |
| Nodes.SplitDeathKeyIsNodeKey | src/trie/tree.rs:713-715 | the death row key of a split edge is its database key if and only if the identifier is empty and the edge is not the root |
| PathCodec.EncodePath | src/trie/path.rs:40-76 | the encoding has exactly the hinted size, starts with the length, and is inverted by the decoding function |
| PathCodec.EncodeTo | src/trie/path.rs:40-71 | the bit-shifting loop produces exactly that encoding, and its store never overflows |
| PathCodec.Decode | src/trie/path.rs:80-120 | the loop fails if and only if bytes run out; otherwise it returns the encoded path and exactly the bytes after it |
| PathCodec.DecodeEncode | src/trie/path.rs:80-120 | decoding inverts encoding for every bit string up to 255 bits, whatever bytes follow |
| PathCodec.EncodePrefixFree | src/trie/path.rs:40-71 | no encoding is a prefix of another path's |
| PathCodec.BitsliceMatchesPath | src/trie/tree.rs:1121-1129 | bitslice_to_bytes and the path codec give the same bytes if and only if the key is not empty |
| PathCodec.BitvecRoundTrip | src/trie/tree.rs:1121-1133 | bytes_to_bitvec inverts bitslice_to_bytes on a non-empty key if and only if its length is a multiple of eight |
| PathCodec.EncodedByte | src/trie/path.rs:40-71 | every byte of an encoding after the length: eight bits, the first one worth 128, zeros after the last |
| Nodes.MatchesExactly | src/trie/merkle_node.rs:202-214 | for any key, path_matches holds if and only if the key agrees with the edge on every bit that it has of it |
| EdgeHashing.HashEdge | src/trie/merkle_node.rs:237-248 | the computation through zeroed 32-byte buffers gives the hash of the child with the path as a big-endian number in the field, plus the path's length |
| HashLaws.RootHashIsCommitment | src/trie/merkle_node.rs:234-248 | for every hash function: the root hash of a canonical trie is the Starknet commitment to its key-value map, defined bit by bit on the tree of all keys; zero for the empty trie |
| HashLaws.FirstArgument | src/trie/merkle_node.rs:234-248 | with a hash that returns its first argument, a trie hashes to the value of its least key plus the number of that key's bits at which no other key parts from it |
| HashLaws.SecondArgument | src/trie/merkle_node.rs:234-248 | with a hash that returns its second argument, a trie hashes to number plus length of the first run of bits of its greatest key at which no other key parts from it |
| HashLaws.LeadingZeroCounts | src/trie/merkle_node.rs:237-248 | for every hash function a leading zero bit adds one to the hash of an edge, which therefore differs |
| HashLaws.PathsApart | src/trie/merkle_node.rs:237-248 | paths of one length, up to 251 bits, that are the same field element are the same |
| Shapes.GraftReplaces | src/trie/tree.rs:718-735 | replacing a loaded subtree in its own slot, with everything new on the death row below it, leaves the rest of the tree represented and every slot used once |
| Shapes.SamePrefixSameNode | src/trie/iterator.rs:161-196 | keys that share their first n bits walk through the same loaded nodes to bit n |
| Shapes.FitsExactly | src/trie/tree.rs:205-242 | no cached hash above an edit contradicts the new trie if and only if there is none, provided that every subtrie on the way gets another hash |
| Shapes.EditHashed | src/trie/tree.rs:205-242 | an edit whose new top has no hash, or takes over the old one, keeps cached hashes right if no surviving node on the way has one, and only then under the same proviso |
| TreeState.AdvanceInv | src/trie/iterator.rs:120-143 | loading a child and patching its parent's handle keeps the joint invariant and the represented trie, and takes the walk one node further |
| TreeState.ReadChild | src/trie/iterator.rs:91-118 | what is read off a node decides rightly whether the seek ends there; if it does, the leaf handle is the trie's value of the key; if not, the child is in the arena or in the database and not on the death row |
| TreeState.AdvanceMarks | src/trie/iterator.rs:120-143 | loading a child changes neither which nodes on the key's way have no hash, a loaded one having its stored hash, nor the hash at the root |
| TreeState.WalkedOn | src/trie/tree.rs:180-202 | before its end a loaded walk goes on to a loaded node, so that repeating a seek loads nothing |
| Tries.TipPresent | src/trie/iterator.rs:112-119 | the tip of a seek, defined by the present keys alone, is the key itself if and only if the key is present |
| TreeState.EndTip | src/trie/iterator.rs:99-106 | the path shown where a seek ends is the tip: no present key shares more bits with the key, those that share as many go on from the tip, some do, and they part there unless it is a whole key |
| TreeState.EndOnTheWay | src/trie/iterator.rs:88-89 | the nodes listed where a seek ends lead from the loaded root to the tip, each at its record's height and each record's handle to the next |
| TreeState.EndUnique | src/trie/iterator.rs:112-119 | a key has one node at which its seek ends |
| TreeState.ResumePoint | src/trie/iterator.rs:161-190 | the last node kept by the partition point lies on the new key's walk, below the same nodes |
| Editing.SplitInv | src/trie/tree.rs:628-716 | the up to four records of a split represent the trie with the new key inserted, in all cases of leading and trailing edges |
| Editing.LeafInv | src/trie/tree.rs:630-638 | overwriting a leaf represents the trie with the new value |
| Editing.LeafHashes | src/trie/tree.rs:630-638 | overwriting a leaf: the surviving nodes are all on the key's way, the edge or branch above the leaf keeping its hash, and the hash at the root stays what it was |
| Editing.SplitHashes | src/trie/tree.rs:640-716 | a split: the surviving nodes are those above the split edge, and what replaces it has no hash |
| Editing.CollapsedHashes | src/trie/tree.rs:855-908 | a collapse: the surviving nodes are those above the collapsed branch, the parent edge that takes over its bits among them |
| Editing.StaleHash | src/trie/tree.rs:630-638 | a stem with its right hash, and the same record with another leaf and the old hash: right before, wrong after |
| Editing.CollapsedInv | src/trie/tree.rs:855-908 | replacing the branch above a deleted leaf by an edge, merged with the sibling and the parent where these are edges, represents the trie without the key; every lost node is on the death row |
| Editing.SurvivorMerged | src/trie/tree.rs:1022-1065 | merging finds the sibling's record in the arena or in the database, never a stale one for a leaf, and gives the edge wanted |
| Editing.DeletePoint | src/trie/tree.rs:812-844 | a seek for a present key ends at an edge straight down to the leaf or at the branch above it |
| Editing.BranchPoint | src/trie/tree.rs:855-863 | above an edge there is a branch, so the expectation that the node is binary holds |
| Editing.UpdateInv | src/trie/tree.rs:566-602 | set and delete keep trie, overlay and flat table agreeing on which keys are present |
| Editing.KeptExactly | src/trie/tree.rs:205-242 | where no hashes collide, right cached hashes are right after an update if and only if no node that the key passes and that survives has one, or the trie stays the same |
| Commits.HashListOrder | src/trie/tree.rs:406-480 | the hashes come children first, left before right, one for each loaded node |
| Commits.HashListLength | src/trie/tree.rs:403-406 | the hash computation lists exactly one hash per arena slot |
| Commits.UnloadedHolds | src/trie/tree.rs:527-534 | once the writes are in the database a subtree can be read back from it alone, every stored hash its node's own |
| Commits.CommitInv | src/trie/tree.rs:293-333 | after the updates are applied the database alone represents the same trie, its trie table has exactly the live nodes, and its flat table exactly what was in view |
| Commits.LiveStored | src/trie/tree.rs:527-552 | every node of a trie wholly on disk has its database entry |
| Commits.StoredUnique | src/trie/tree.rs:154-202 | arena, database and handle determine the subtrie and where each of its nodes lives: two shapes of one height that the same records stand for are the same |
| Commits.StateUnique | src/trie/tree.rs:126-151 | in every state the tree's own fields and the database determine the trie it stands for, whatever has been loaded |
| Commits.TablesEmpty | src/tests/proptest.rs:106-114 | after a commit both tables are empty if and only if the trie is |
| MerkleTrie.MerkleTree.constructor | src/trie/tree.rs:113-123 | a new tree over a database represents the trie that the database stands for |
| MerkleTrie.MerkleTree.LoadRootNode | src/trie/tree.rs:126-151 | loads the root once, keeps the trie, and reports none if and only if the trie is empty |
| MerkleTrie.MerkleTree.LoadDbNode | src/trie/tree.rs:154-169 | a stored node that is not on the death row is copied into a fresh slot; nothing else changes |
| MerkleTrie.MerkleTree.LoadNodeHandle | src/trie/tree.rs:180-202 | returns the slot of a loaded node, loads a stored one, and fails if and only if neither is there |
| MerkleTrie.MerkleTree.GetOrComputeNodeHash | src/trie/tree.rs:205-242 | with coherent cached hashes the result is the semantic hash, and the hashes filled in are coherent; nothing but hashes below the node changes |
| MerkleTrie.MerkleTree.UnhashedIsHashed | src/trie/tree.rs:205-242 | with no hash cached and none stored, as before the first commit until a proof is made, the cached hashes are coherent; set, delete and seeks keep it so |
| MerkleTrie.MerkleTree.RootHash | src/trie/tree.rs:256-285 | returns the hash cached or stored at the root, zero for the empty tree, and fails if and only if the loaded root has no hash; with coherent cached hashes a returned hash is the trie's, and with nothing loaded it is always returned and always right |
| MerkleTrie.MerkleTree.ComputeHashes | src/trie/tree.rs:406-480 | returns the semantic hash whatever is cached, and appends the post-order list of hashes; hashing two loaded children apart and joining the lists gives the same list |
| MerkleTrie.MerkleTree.CommitSubtree | src/trie/tree.rs:500-558 | takes exactly the subtree's slots out of the arena and its own hashes off the queue, each for its own node, and queues every record with its hash |
| MerkleTrie.MerkleTree.GetUpdates | src/trie/tree.rs:293-333 | the arena, death row and overlay end empty and the root unloaded; a database with the updates applied represents the same trie, view and exact set of nodes |
| MerkleTrie.MerkleTree.MakeFork | src/trie/tree.rs:660-712 | creates exactly the edges and the branch a split needs, in fresh slots |
| MerkleTrie.MerkleTree.SplitEdge | src/trie/tree.rs:628-716 | splitting the edge a seek for an absent key ended at inserts the key into the represented trie; cached hashes stay right if no node above the edge has one and, unless the hash of one of them stays the same, only then; the root keeps its hash if it is not the edge split |
| MerkleTrie.MerkleTree.Set | src/trie/tree.rs:566-757 | refuses keys of the wrong length; otherwise trie and overlay change exactly as the abstract update says, and the joint invariant is kept; cached hashes stay right if no node that is passed and survives has one and, unless the hash of one of them stays the same, only then; if there is such a node the root keeps its cached hash |
| MerkleTrie.MerkleTree.MergeEdges | src/trie/tree.rs:1022-1065 | the edge takes over its child's bits if and only if the child is an edge in the arena or stored and not on the death row; then the child goes |
| MerkleTrie.MerkleTree.DeleteLeaf | src/trie/tree.rs:767-925 | deletes a key in view from trie and overlay, leaves others alone; its expectations about the nodes it meets always hold; the same condition on cached hashes, for the nodes above the last branch on the key's way |
| MerkleTrie.MerkleTree.RemoveFromTrie | src/trie/tree.rs:810-925 | for a key the trie has, the represented trie becomes the one without it, down to the empty one |
| MerkleTrie.MerkleTree.CollapseBranch | src/trie/tree.rs:855-908 | the branch above the deleted leaf becomes an edge, merged with the edges around it |
| MerkleTrie.MerkleTree.Get | src/trie/tree.rs:936-957 | the value in overlay then flat table; present if and only if the trie has the key |
| MerkleTrie.MerkleTree.Contains | src/trie/tree.rs:970-983 | the same for presence |
| MerkleTrie.ProofVisitor.VisitNode | src/trie/proof.rs:172-197 | leaves a hash on the node visited and changes nothing but hashes; with coherent cached hashes it records the node's own proof node under its own hash |
| MerkleTrie.MerkleTreeIterator.TraverseOne | src/trie/iterator.rs:82-144 | either the seek ends with the trie's value of the key, or the walk has taken exactly one more step; the trie, the root's hash and which nodes on the key's way have a hash are unchanged, and on a walk loaded before nothing is loaded |
| MerkleTrie.MerkleTreeIterator.Truncate | src/trie/iterator.rs:161-196 | resumes at the deepest node above the end of the shared prefix; what is kept of the earlier seek is a walk along the new key |
| MerkleTrie.MerkleTreeIterator.TraverseTo | src/trie/iterator.rs:146-228 | wherever the iterator was, it ends where a walk from the root ends, with the trie's value of the key, the tip as current path and the nodes on the way to it; the trie stays the same, only nodes on the way are loaded, and none on a walk loaded before; a visitor leaves a hash on the root and, if cached hashes are coherent, has then recorded every node on the key's way and added no other |
| MerkleTrie.SeeksAgree | src/trie/iterator.rs:146-228 | iterators at rest at the same key have the same path, node list and leaf hash, however they got there |
| Changes.RecordWrite | src/changes.rs:20-33 | recording another write keeps the batch right about old and new values if and only if the key was not first added in the same window |
| Changes.AddedThenChanged | src/changes.rs:20-33 | a new key written twice in its first window: the batch is right after the first write and wrong after the second |
| Changes.UndoRestores | src/key_value_db.rs:258-272 | putting the old values of the effective changes back restores the first database |
| Changes.LogKey | src/changes.rs:96-114 | a log key starts with its id, and trie key and kind can be read back from it: log keys of one id are distinct for distinct keys and kinds, flat and trie keys apart |
| Changes.IdNumber | src/id.rs:22-24 | the eight bytes of an id are the id as a big-endian number |
| Changes.LogOrder | src/changes.rs:96-114 | in the order of their bytes all log entries of one commit come before all of a later one |
| Changes.LogOfWindow | src/changes.rs:35-114 | byte by byte, what the log of a window has under each key: the value before it and the value after it, if these differ |
| Changes.Serialize | src/changes.rs:35-58 | lists exactly the old and new values of the effective changes, each once, the new one right after the old one |
| Changes.Deserialize | src/changes.rs:60-93 | succeeds if and only if every key is well-formed, and groups adjacent entries of one key |
| Changes.ReadBack | src/changes.rs:60-93 | for any order of a batch's log: exactly the effective changes come back, with their old values, and with their new value unless it precedes the old one and entries of other keys lie between |
| Changes.ReadBackExactly | src/changes.rs:60-93 | the log reads back as the effective changes if and only if no key's entries are torn apart in that way |
| Changes.SortedRoundTrip | src/changes.rs:35-93 | for prefix-free keys a sorted log reads back as exactly the effective changes |
| Changes.TornInOrder | src/changes.rs:60-93 | one key changed and an extension of it added in one window: their sorted log does not read back as the batch, so that prefix-free keys are needed |
| Changes.TreeKeysPrefixFree | src/trie/path.rs:123-133 | keys that are encoded paths are prefix-free |
| Changes.UndoFromLog | src/key_value_db.rs:258-272 | for any order of the log, its old values restore the first database, and no change read back lacks both values |
| KeyValueDb.Retention | src/key_value_db.rs:111-134 | after committing ids from 0 with limit m, the last m logs are there in full and no earlier one has an entry left; without a limit all are there, with limit zero none |
| KeyValueDb.OnlyCommittedIds | src/key_value_db.rs:111-134 | nothing else is in the log |
| KeyValueDb.LoggedUnder | src/key_value_db.rs:125-133 | a commit changes the log of its own id and of the one id that has become too old, and no other |
| KeyValueDb.KeyValueDB.Insert | src/key_value_db.rs:175-191 | writes the value and records the change; the record stays right if and only if the key was not first added in this window |
| KeyValueDb.KeyValueDB.Remove | src/key_value_db.rs:193-208 | the same for a removal |
| KeyValueDb.KeyValueDB.Commit | src/key_value_db.rs:111-137 | the log grows by the window's entries and loses the one that is too old; a new window begins |
| KeyValueDb.KeyValueDB.GetByPrefix | src/databases/hashmap_db.rs:79-91 | the entries under a prefix, each once, in any order |
| KeyValueDb.KeyValueDB.UndoCommit | src/key_value_db.rs:243-272 | whatever the orders of listing and applying, the tables become what they were before the logged window, and the arm for a change without values is never reached |
| MerkleTreesOverDb.TreeChangesPrefixFree | src/changes.rs:60-93 | the keys changed between two databases of the tree are prefix-free |
| MerkleTreesOverDb.MerkleTrees.Set | src/trie/trees.rs:48-60 | the tree's update, against its own database, with the same condition on cached hashes, an if-and-only-if where no hashes collide |
| MerkleTreesOverDb.MerkleTrees.ApplyUpdates | src/trie/trees.rs:200-216 | in any order, the database ends with all updates applied, and a window that was empty has recorded every change rightly |
| MerkleTreesOverDb.MerkleTrees.Commit | src/trie/trees.rs:184-217 | trie and view stay the same; afterwards the database alone stands for them, with exactly the trie's nodes, and nothing is loaded |
| MerkleTreesOverDb.MerkleTrees.CommitAs | src/lib.rs:473-474 | the commit's changes are logged under its id, record what changed, and have prefix-free keys |
| MerkleTreesOverDb.MerkleTrees.ResetToLastCommit | src/trie/trees.rs:103-108 | the tree is that of the last commit again |
| Runs.RunInv | src/trie/tree.rs:767-844 | in every state of every run of sets, deletes, commits, seeks and proofs from an empty store the trie is canonical and has exactly the keys in view |
| Runs.WriteView | src/trie/tree.rs:584-602 | what is in view after a write: the value written, unless the key was removed in this window and is set back to its committed value |
| Runs.WriteTrie | src/trie/tree.rs:584-602 | what the trie has after a write, with both short cuts |
| Runs.StepExact | src/trie/tree.rs:584-602 | from a state in which trie and view are right, a step leads to one if and only if it is regular |
| Runs.RunExact | src/trie/tree.rs:566-757 | trie and view say what was written in all states of a run if and only if every step is regular in the state it meets |
| Runs.OverlayExact | src/trie/tree.rs:584-602 | in a regular run the flat table has the content of the last commit, and the overlay exactly what differs from it: the new value, or a removal for what has been there since |
| Runs.RegularBySteps | src/trie/tree.rs:584-602 | all steps of a run are regular if and only if they are by the contents then and at the last commit alone |
| Runs.RunExactBySteps | src/trie/tree.rs:566-757 | trie and view say what was written in all states of a run if and only if the steps are regular, which is a condition on the steps alone |
| Runs.RunCommitment | src/trie/tree.rs:256-285 | after regular steps the root hash is the commitment to the plain map they amount to, for every hash function |
| Runs.HistoryIndependence | src/trie/tree.rs:291-333 | regular runs that write the same content, in whatever order of inserts, deletes, commits, seeks and proofs, end with the same trie and root hash |
| Runs.RootHashCommits | src/trie/tree.rs:256-285 | where no hashes collide, regular runs end with the same root hash if and only if they wrote the same content |
| Runs.SetThenRemove | src/trie/tree.rs:566-925 | setting an absent key and removing it again gives back the trie |
| Runs.StaleLeaf | src/trie/tree.rs:587-592 | two different values set in one window: the second is in view, the first in the trie |
| Runs.ReinsertIsLost | src/trie/tree.rs:594-602 | in every run, whatever came before: a value in view at a commit, removed and set again right after it, is gone from view and trie |
| Runs.LostReinsert | src/trie/tree.rs:594-602 | in every run that sets a value, commits, removes it and sets it again, the key ends up in neither view nor trie |
| Scenarios.Perform | src/tests/proptest.rs:76-96 | the objects go through a run of the abstract states, step by step, also where seeks and proofs load nodes and fill in hashes |
| Scenarios.Check | src/tests/proptest.rs:66-118 | for every height and steps: the values read back are the expected ones if every step is regular, and removing all keys leaves tables and arena empty in any case |
| Scenarios.CommittedRootHash | src/trie/tree.rs:256-285 | after regular steps and a commit the tree returns the commitment to the plain map they amount to |
| Scenarios.CompareHistories | src/trie/tree.rs:256-285 | two sequences of steps that amount to the same content, all regular, commit to the same root hash |
| Scenarios.SetAfterCommit | src/trie/tree.rs:256-285 | after a commit and one write the root hash is the committed one whenever a node passed survives the write, and right or refused when none does |
| Scenarios.StaleRootHash | src/trie/tree.rs:630-638 | a key set, committed and set to another value: the root hash returned is that of the old trie and not of the new one |
| Scenarios.SetAfterProof | src/trie/proof.rs:163-219 | right hashes, a proof and one write, committed or not: the root hash is the old one whenever a node passed survives the write |
| Scenarios.StaleByProof | src/trie/proof.rs:194-197 | nothing committed, three keys set and a proof made before the third: the root hash returned is that of the first two |
| Scenarios.SeekBothWays | src/trie/iterator.rs:146-228 | a seek resumed after any other seeks and a fresh seek of the same key end with the same path, node list and leaf hash: the resumed seek refines the fresh one |
| Scenarios.RunSession | src/lib.rs:473-474 | over any session of commits every batch records what its commit changed, and the log is the one retention speaks of |
| Scenarios.Rewind | src/key_value_db.rs:258-272 | the undo of one commit composes: repeated newest first, an order of the method and not of the source, it gives the tables of any commit whose later logs are kept |
| ProofNodes.HashBinds | src/trie/tree.rs:205-242 | the root hash binds: two tries of one height whose nodes do not collide and whose hashes agree are the same |
| ProofNodes.InsertChanges | src/trie/tree.rs:610-755 | where no hashes collide, an insertion that changes the trie changes the hash of every node the key passes |
| ProofNodes.DeleteChanges | src/trie/tree.rs:778-908 | where no hashes collide, a deletion changes the hash of every node above the last branch on the key's way |
| ProofNodes.CoverNext | src/trie/iterator.rs:188-190 | a proof with every node up to one of them on a key's way has every node before the next |
| Proofs.VerifyKey | src/trie/proof.rs:80-156 | none is returned if and only if the source's loop would not end; otherwise the verdict is that of the check without a cache; the cache keeps what it had, holds only checked hashes and gets all those passed; the path never overshoots the key |
| Proofs.VerifyProof | src/trie/proof.rs:69-157 | one verdict per key, in order, up to the first key on which the check does not end; a key of the wrong length is refused alone |
| Proofs.VerdictUnique | src/trie/proof.rs:92-154 | there is one verdict at most |
| Proofs.Terminates | src/trie/proof.rs:92-154 | the check ends for all roots and keys if and only if no chain of edges of no bits with right hashes comes back to its start |
| Proofs.EndsWithin | src/trie/proof.rs:92-154 | for every root and key, the check ends if and only if it does within (entries + 1) steps per bit of the key and one more |
| Proofs.EndlessCheck | src/trie/proof.rs:92-154 | with a hash that returns its first argument, for every key and value there is a one-entry proof on which the check against the root hash of that one-key trie never ends |
| Proofs.FailureMeans | src/trie/proof.rs:105-132 | of any map, root and key: a node reported missing is missing, a hash reported wrong is that of the entry and not the one looked for, and the path reported is a proper prefix of the key; there is no other failure |
| Proofs.FirstShortfall | src/trie/proof.rs:105-132 | against a trie's root hash, for any map without collisions, the verdict is that the first node on the key's way without a right entry is missing, or has a wrong hash |
| Proofs.ProvenExactly | src/trie/proof.rs:69-157 | the key's value, or zero, is proved if and only if every node on its way has a right entry |
| Proofs.Soundness | src/trie/proof.rs:69-157 | against a trie's root hash the check ends, and a value it accepts is the trie's, or zero for an absent key, for any map whose nodes do not collide with the trie's |
| Proofs.Completeness | src/trie/proof.rs:69-157 | a proof of the trie's own nodes with every node on the key's way proves the key's value |
| Proofs.EmptyTrieUnproven | src/trie/proof.rs:116-132 | against the empty trie's root hash the only verdict is a missing node or a wrong hash, unless the proof has a node under zero that hashes to zero |
| Proofs.GetMultiProof | src/trie/proof.rs:163-219 | for any sequence of keys and any tree: a key of the wrong length is the only failure, the first one being reported, and the trie is unchanged; with coherent cached hashes the proof holds exactly the nodes on the keys' ways, and proves every key's value where node hashes are unambiguous |
| Proofs.ProveAndVerify | src/trie/proof.rs:239-289 | it fails only for a key of the wrong length, or for no keys at all on a tree whose loaded root has no hash; proving keys and verifying them against the tree's root hash gives the trie's values, with coherent and unambiguous hashes, and missing nodes for the empty trie |

## Left out

- Several identifiers in one database: keys are plain concatenations of identifier and path, so keeping trees apart needs assumptions about the identifiers; the one tree here has the empty identifier.
- Seeks for keys shorter than the tree and for the empty key: the leaf hash they give depends on which nodes happen to be loaded.
- The byte encoding of nodes and values: a stored node or value is kept as it is, and encoding is taken to be a bijection.
- The Pedersen and Poseidon hashes and the internals of field arithmetic.
- Bit slices that do not start at a byte boundary, and padding bits that are not zero.
- Parallelism: the two halves of a parallel hash computation are computed one after the other, each into its own list.
- Snapshots, transactions and the loop of get_transaction, which goes over several commits from a snapshot on, oldest first; only its step for one commit is there.
- Trees of height zero or above 251, the length of a Starknet path.
- Write batches: a write through a batch is modelled as a write.
- RocksDB, its column families and options, and errors of the database itself.
- Errors for dangling node keys: they are proved unreachable, so the methods that would pass them on do not return them.
- MerkleTrie.MerkleTree.Get: a flat value that does not decode makes the source panic; tables that the tree itself wrote have none.
- Proofs.VerifyKey: counts its rounds, which the source's loop does not, and returns none where that would go on forever.
- Proofs.VerifyProof: ends before a key on which the source's iterator would hang.
- Proofs.GetMultiProof: what is in a proof made from stale cached hashes is not stated, nor what it proves where different nodes of the trie have the same hash.
- MerkleTreesOverDb.MerkleTrees.CommitAs: without the snapshot that a commit creates in the end.
- get_keys and get_key_value_pairs, which list the flat table.
- revert_to, get_changes, get_at, get_latest_id and KeyValueDB::merge, which are not implemented in the source.
