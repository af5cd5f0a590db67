# rustreexo, modelled and verified

rustreexo implements the Utreexo accumulator: a forest of Merkle trees over a set of unspent
outputs, one tree for every set bit of the number of leaves ever added.  Deleting a leaf promotes
its sibling into the parent's place; adding a leaf carries through the trees like a binary counter.
The repository has several implementations of this one object, and they have to agree:

- `Stump` keeps only the root hashes and follows blocks with the help of proofs,
- `MemForest` keeps every node, linked by pointers, and makes the proofs,
- `Pollard` keeps nodes that point to their nieces instead of their children,
- `Proof::update` brings a cached proof up to date without any forest.

The project models this code and proves that all of it follows the abstract forest of `Forest.dfy`,
a list of binary trees.

## How the model is laid out

| files | what they model |
|---|---|
| `Bits`, `Positions`, `Digits`, `Offsets`, `Geometry` | machine words and the position arithmetic of `src/util/mod.rs`; a position stands for a row and an offset |
| `Forest`, `Slots` | the abstract forest, deletion, addition, and the subtree at a position |
| `ProofPositions`, `SingleProof` | which hashes a proof needs |
| `MergeLoop`, `ProofEngine`, `Soundness` | the two-queue loop of `calculate_hashes_delete` and `calculate_hashes`, completeness and conservation |
| `Holes`, `Destroyed`, `Stages`, `Listed`, `DestroyExample` | forests with empty roots, seen as forests from which leaves are taken out again, and `roots_to_destroy` |
| `Stump`, `NewAdd`, `Growth`, `Landing` | `Stump::add`, `remove`, `modify`, and what `modify` reports |
| `NodeHeap`, `ForestHeap`, `HeapAddition`, `HeapDeletion`, `Lookup`, `Walks`, `Blocks`, `MemForest` | the linked nodes of `MemForest` |
| `Runs` | stump and `MemForest` side by side over whole runs |
| `Paths`, `Tops`, `Moves`, `Detwin`, `MoveOrder`, `OrderExample`, `Survivors`, `ProofMoves`, `ProofUpdate`, `ProofRemove` | proof update under deletion |
| `GrownPaths`, `Regrowth`, `ProofAdd`, `ProofMaintain` | proof update under addition, and both together |
| `Client` | a client that keeps only a stump and a cached proof, over whole runs |
| `ProofCheck` | `verify` and `get_proof_subset` |
| `MergeRuns`, `Rename`, `Verdicts`, `VerdictExample`, `HalfTrust` | runs of the hashing loop on proofs that need not be honest, and when the answer of `verify` can be trusted |
| `NieceHeap`, `PollardRows`, `PollardWalks`, `Pollard` | the niece encoding |
| `Streams`, `Serialize` | writing and reading a `MemForest` |

The program's objects are classes (`TreeNode`, `MemForest`, `PollardNode`, `Pollard`, `Reader`,
`Writer`); its loops are loops.  Properties of linked nodes are stated of a snapshot, a map from
node to cell, so that each proof step is about values.  Every node carries a ghost field with the
tree it is the root of; links, cached hashes and the leaf map are proved to fit it.

Assumptions, stated once: leaf hashes are distinct, neither empty nor a placeholder; there are at
most 2^61 leaves (`MAX_LEAVES`); hashes are a free datatype, so that different contents have
different hashes.  "Current" positions are those in a forest with `tree_rows(leaves)` rows; `prove`
and `batch_proof` return targets translated to 63 rows.

A proof is called honest for given leaves if its targets are their positions and its hashes are the
true ones at exactly the needed positions, in ascending order (`ProofEngine.HonestProof`,
`ProofChecks.CurrentProof`).

## Where the code does less than it says

Each of these comes with the exact condition under which the code does what it says, or with an input
on which it does not.

- `remove_bit` is documented to remove any bit.  Its masks are built from 32-bit literals, so it does
  so for bit numbers up to 30 and for no others (`Digits.RemoveBitExact`).  The number is how many rows
  the moved position lies below the deleted node, so `calc_next_pos` is right for every position that a
  deletion moves if and only if the deleted node is in row 30 or below, or one of the first two of row 31
  (`MasksReach`, `ProofUpdates.MoveExact`).  Deletions in forests of at most 32 rows, and blocks that
  cover less than 2^31 leaves, always are (`ProofUpdates.SmallMovable`).
- `detwin` puts the parents it makes behind what is left of the list, so that `calc_next_positions` may
  fold deletions in the wrong order.  It sends every surviving node to its new position if and only if
  no deletion comes before one that lies below its sibling, except in trees that are deleted as a whole
  (`MoveOrders.OrderExact`).  For the caller's block, if no position of it is above another, this is
  asked of what `detwin` makes of it (`ProofUpdates.BlockExact`).  `MoveOrders.TwinsLastInOrder` is a
  sufficient condition on the block itself, which increasing bottom-row lists meet
  (`Detwins.BottomTwinsLast`);
  `OrderExamples.WrongPlace` is a block of three leaves for which a fourth is sent to an empty position.
- `roots_to_destroy` does not reset its row counter between additions (src/util/mod.rs:164), so that
  later rounds start in the row where the one before ended.  Its list is right, for any number of
  additions, if and only if it treats each empty root right (`Landings.DestroysExact`), which depends on
  the leaf count, the number of additions and the row alone (`ListedRoots.TreatedRight`).  Below the
  lowest zero z of the leaf count it always does; in the run of ones above z if there is at most one
  addition, or at least 1 + 2^z; if z is 0, in the next run, above the zero y, if there are at most two
  additions, or at least 2 + 2^y; further up only as long as the additions neither write the root over
  nor pop it.  It goes wrong both ways.  A root that stays is listed when five leaves of which four are
  deleted get two more, or four deleted leaves get three more (`DestroyExamples.ListedOfFive`,
  `ListedOfFour`); a root that is written over is left out when eight deleted leaves get eight more
  (`DestroyExamples.MissedOfEight`).
- `Pollard::prove_single` returns the leaf's own hash when the leaf is a root, where the proof has to
  be empty; for every other leaf its proof is honest (`Pollards.Pollard.ProveSingle`).
- `update_proof_add` looks the remembered leaves up in one pass over the new nodes.  All listed leaves
  are found if and only if their places in the grown forest increase along the list
  (`ProofAdditions.RemembersAll`); the first leaf out of order, or listed twice, ends the pass.
- The last test of `Proof::verify` compares the number of unmatched calculated roots with the number
  of matched ones (src/proof/mod.rs:357), so that it also accepts if exactly half of the roots match.
  Its answer proves that the deleted hashes are leaves of the forest if and only if the targets lie in an
  odd number of trees (`Verdicts.TrustExact`); for three leaves `VerdictExamples.FooledThree` is a wrong
  proof that is accepted.  If the number of trees is even, an accepted proof can be trusted in those of
  the first half of the calculated roots (`HalfTrusted.EvenTrusted`).  `Stump::modify` requires that every computed root is consumed, and is sound
  for every proof (`Stumps.Modify`).

## Model

| member | source | states |
|---|---|---|
| `Positions.DetectRow` | src/util/mod.rs:190-200 | the loop counts the ones of the position from the row mask downwards: the digits above are ones and the next is zero; also for a position outside the forest |
| `Positions.Decode` | src/util/mod.rs:190-200 | every position of a forest is the encoding of exactly one row and offset |
| `Positions.RowOfEncode` | src/util/mod.rs:190-200 | row and offset are read back from an encoded position |
| `Positions.Order` | src/util/mod.rs:136-141 | positions are numbered row by row, then left to right |
| `Positions.StartIsRowStart` | src/util/mod.rs:136-141 | `start_position_at_row` is the number of the first position of a row |
| `Positions.TreeRowsBounds` | src/util/mod.rs:278-287 | `tree_rows` is the least number of rows that has room for n leaves |
| `Positions.ParentEncode` | src/util/mod.rs:267-269 | `parent` goes one row up and halves the offset |
| `Positions.SiblingEncode` | src/util/mod.rs:147-149 | `^ 1` flips the lowest digit of the offset, `left_sibling` clears it, and both keep the row |
| `Positions.ChildEncode` | src/util/mod.rs:247-256 | `left_child` and `right_child` are the two positions whose parent this is |
| `Positions.RootPositionEncode` | src/util/mod.rs:289-294 | `root_position` of a populated row is the last complete position of that row |
| `Positions.IsRootEncode` | src/util/mod.rs:11-18 | a position is a root position exactly if its row is populated and it is the last one there |
| `Positions.Climb` | src/util/mod.rs:267-269 | parent and sibling of a position that is no root lie in the same forest, one row up and in the same row; climbing ends |
| `Positions.ParentOrder` | src/util/mod.rs:331-341 | parents are ordered as their children, and only an even position and its successor share one |
| `Positions.TranslateCurrent` | src/util/mod.rs:67-75 | `translate` from 63 rows leaves every position below 2^63 alone |
| `Positions.TranslateRoundTrip` | src/util/mod.rs:67-75 | translating to 63 rows and back is the identity on every forest position |
| `Positions.TranslateEncode` | src/util/mod.rs:67-75 | `translate` keeps row and offset |
| `Geometry.TranslateCommutes` | src/util/mod.rs:67-75 | translating to 63 rows commutes with `parent` and with taking the sibling |
| `Geometry.ClimbEnds` | src/util/mod.rs:267-294 | climbing `parent` meets a root position first after exactly the number of steps to the root of the tree, and this is `root_position` of the tree's row |
| `Offsets.DetectOffset` | src/util/mod.rs:202-245 | for every position of every forest: the index of its tree, its depth there, and the inverted digits of its offset as the path down |
| `Digits.RemoveBitExact` | src/util/mod.rs:22-32 | `remove_bit` takes out digit `bit` of every word if and only if `bit` is at most 30; from 31 on its masks, made of 32-bit literals, are wrong |
| `Digits.NextPosEncode` | src/util/mod.rs:77-96 | `calc_next_pos` moves a position one row up and drops from its offset the digit that tells the deleted node from its sibling, whenever the masks reach |
| `ProofUpdates.MoveExact` | src/util/mod.rs:77-96 | for one deletion, `calc_next_pos` is right for all positions that it moves if and only if the masks of `remove_bit` reach |
| `ProofUpdates.SmallMovable` | src/util/mod.rs:77-96 | they reach in every forest of at most 32 rows, and for every block that covers less than 2^31 leaves |
| `Digits.ParentManyEncode` | src/util/mod.rs:296-308 | `parent_many` is climbing `rise` rows: the offset loses its lowest `rise` digits |
| `Digits.AncestorAbove` | src/util/mod.rs:310-329 | `is_ancestor` answers for any two positions of a forest whether the first is strictly above the second on its path |
| `ProofPositions.GetProofPositions` | src/util/mod.rs:343-384 | for any targets, in any order and with repetitions, the growing worklist ends and returns in ascending order exactly the positions of `ProofSet` |
| `ProofPositions.ProofSetMember` | src/util/mod.rs:343-384 | `ProofSet` holds exactly the siblings of path nodes that are no roots and not on a path themselves |
| `ProofPositions.PathLeast` | src/util/mod.rs:343-384 | the paths are the least set that holds the targets and is closed under `parent`: nothing smaller would do |
| `SingleProofs.SinglePositions` | src/util/mod.rs:343-384 | for one target these are the siblings met on the way up, in that order |
| `Slots.ProofSlotOccupied` | src/util/mod.rs:343-384 | every needed position of occupied targets is occupied |
| `Slots.SlotUnique` | src/mem_forest/mod.rs:389-423 | no two positions of a forest carry the same nonempty subtree |
| `Detwins.Detwin` | src/util/mod.rs:98-132 | ends for every list of positions and keeps the set of bottom-row leaves below them; from positions of which none is above another it makes such a list again, in the order of `Twins` |
| `Detwins.BottomTwinsLast` | src/proof/mod.rs:933-977 | an increasing list of bottom-row targets lies before all parents that `detwin` makes of it |
| `Moves.MovedStep` | src/util/mod.rs:77-96 | one more deleted subtree, not disturbed by those before, moves a position by one `calc_next_pos` if it lies below the deleted node's parent, and not at all otherwise |
| `MoveOrders.OrderMoves` | src/proof/mod.rs:942-972 | folding these moves over deletions in order gives the new position, defined independently by walking up from the node and skipping the rows whose sibling is deleted |
| `MoveOrders.OrderExact` | src/proof/mod.rs:942-972 | the fold is right for every surviving node if and only if no deletion comes before one below its sibling, except in trees that are deleted as a whole |
| `MoveOrders.TwinsLastInOrder` | src/util/mod.rs:98-132 | `detwin` keeps this order for ascending lists that lie before all their parents |
| `OrderExamples.WrongPlace` | src/proof/mod.rs:942-972 | a block of three leaves, honest and in ascending order, after which `calc_next_positions` gives a surviving leaf a position where nothing is |
| `Survivors.KeptSurvives` | src/proof/mod.rs:933-977 | a node lies outside all detwinned deletions if and only if something of its subtree survives |
| `Survivors.MovedAt` | src/proof/mod.rs:933-977 | at the new position of a surviving node the forest after the deletion carries exactly what survives of its subtree |
| `ProofUpdates.BlockExact` | src/proof/mod.rs:933-977 | for a block of targets of which none is above another: the moves over what `detwin` makes of it are right for every surviving node if and only if that is in order |
| `ProofUpdates.NextPosition` | src/proof/mod.rs:948-972 | the inner loop, with its subtree tests and its early exit at a root, computes the fold of the moves for any list of deletions |
| `ProofUpdates.CalcNextPositions` | src/proof/mod.rs:933-977 | for any block of targets of which none is above another the result is sorted and holds each pair with a hash where the moves over the detwinned block, one after the other, lead; if these are in order, at its new position |
| `MergeLoop.MergeCompletes` | src/proof/mod.rs:541-568 | the two-queue loop, generic in what it hashes: on a set of nodes closed under siblings it never misses one, computes the right value at every inner node once, in ascending order, and returns the roots from the smallest tree up |
| `ProofEngine.CalculateHashesDelete` | src/proof/mod.rs:493-577 | the loop's input is the sorted union of translated targets and proof positions; error cases included |
| `MergeLoop.NextLeast` | src/proof/mod.rs:665-692 | `get_next` takes the lower of the two heads, and the provided one if both are at the same position |
| `ProofEngine.HonestDelete` | src/proof/mod.rs:505-576 | on an honest proof: one pair of old and new root hash for each touched tree, smallest first, and at every visited position the hash of what survives there, or Empty |
| `Soundness.MergeSound` | src/proof/mod.rs:541-568 | on any proof: every target and every proof hash that enters the loop flows into exactly one of the roots it returns |
| `Soundness.CommitsPair` | src/proof/mod.rs:548-566 | if two pairs of old and new hash commit to deletions in their subtrees, the pair computed from them commits to both deletions in the parent's subtree, empty halves included |
| `MergeRuns.MergeShort` | src/proof/mod.rs:541-568 | a run that lacks some of the needed proof hashes ends with a missing sibling |
| `ProofChecks.CalculateHashes` | src/proof/mod.rs:587-662 | as `calculate_hashes_delete`, but only the proof positions are translated and targets enter as they are; the proof nodes are left out of the result |
| `ProofChecks.MatchesAll` | src/proof/mod.rs:345-361 | the matching loop of `verify` consumes all calculated roots if they come in reverse order of the stump's |
| `ProofChecks.Verify` | src/proof/mod.rs:330-362 | every honest proof in current positions is accepted, with the roots of the touched trees, smallest first; for every proof the answer is Ok(true) if and only if all calculated roots are roots of different trees, last tree first, or exactly the first half of them is; the errors are those of the hashing loop |
| `ProofChecks.MatchLongest` | src/proof/mod.rs:345-355 | the loop over the roots matches the longest beginning of the calculated roots that occurs among the roots in this order |
| `ProofChecks.VerdictExact` | src/proof/mod.rs:345-361 | so the last test passes if and only if all of them occur, or the first half and no more |
| `Verdicts.TrustExact` | src/proof/mod.rs:330-362 | for given distinct leaf targets, acceptance implies for all proofs and hashes that the hashes are leaves of the forest, if and only if the targets touch an odd number of trees |
| `Verdicts.OddTrusted` | src/proof/mod.rs:345-361 | for an odd number an accepted proof has all its calculated roots matched |
| `Verdicts.EvenFooled` | src/proof/mod.rs:345-361 | for every even number there is an accepted proof for a hash that is in no tree |
| `HalfTrusted.EvenTrusted` | src/proof/mod.rs:330-362 | but for every even number 2k, whatever the proof: an accepted one has its first k calculated roots among those of the forest, each of another tree, and the leaves that it names in these k touched trees are in the forest, with multiplicity |
| `HalfTrusted.NamedIsLive` | src/proof/mod.rs:330-362 | in particular each deleted hash whose target lies in one of these trees is a live leaf |
| `HalfTrusted.FewRejected` | src/proof/mod.rs:357-359 | if fewer than half of the calculated roots are matched the answer is Ok(false) |
| `VerdictExamples.FooledThree` | src/proof/mod.rs:357-361 | for three leaves: targets 2 and 0, one right and one wrong hash, accepted |
| `ProofChecks.GetProofSubset` | src/proof/mod.rs:377-411 | from an honest proof, for any new targets: no error, and the true hashes at exactly those needed positions that lie on or beside a root path of the old targets, in ascending order; from any proof, an error exactly if the hashing loop has one |
| `ProofChecks.KnownEnough` | src/proof/mod.rs:377-411 | for new targets on or beside these root paths, for example the old ones or their siblings, nothing is missing: the result is the honest proof |
| `DestroyedRoots.RootsToDestroy` | src/util/mod.rs:153-183 | the two loops make the list `Destroys`, of which `Landings.DestroysExact` says when it is right; no listed position is in the top row, so that the `unwrap`s of `Stump::add` succeed |
| `ListedRoots.ListIs` | src/util/mod.rs:160-182 | what is listed, row by row, for all roots and any number of additions: the position of a row exactly if the entry that is popped there is an empty root |
| `Landings.DestroysExact` | src/util/mod.rs:153-183 | for any number of additions: the list is exactly the empty roots written over if and only if each empty root is treated right, a condition on leaf count, number of additions and row (`TreatedRight`) |
| `ListedRoots.RightExact` | src/util/mod.rs:160-182 | the same for each row: listed exactly if empty and written over, in all rows, if and only if each empty root is treated right |
| `DestroyExamples.ListedOfFive` | src/util/mod.rs:164-176 | five leaves, the first four deleted, and two additions: a root is listed that is still a root afterwards |
| `DestroyExamples.ListedOfFour` | src/util/mod.rs:164-176 | four leaves, all deleted, and three additions: the same root is listed |
| `DestroyExamples.MissedOfEight` | src/util/mod.rs:164-176 | eight leaves, all deleted, and eight additions: nothing is listed, although the root is written over |
| `DestroyedRoots.AddPosition` | src/stump/mod.rs:338-347 | the loop makes the moves over the destroyed roots one after the other; where the masks reach these are the moves of deletions, and without destroyed roots the leaf stays at its own position |
| `Stumps.AddOne` | src/stump/mod.rs:344-374 | carries a hash through the roots, dropping empty ones, and enters the nodes it makes |
| `Stumps.Add` | src/stump/mod.rs:328-378 | for all roots and additions: the new roots, the destroyed roots, and the nodes that the leaves enter on their way up, each once, sorted |
| `Stumps.AddCommutes` | src/stump/mod.rs:337-377 | adding hashes to root hashes is adding leaves to trees, empty roots included |
| `Landings.NewAddData` | src/stump/mod.rs:328-378 | for plain additions `new_add` holds, where they come to stand when the destroyed roots give way and with their hashes, the ancestors and selves of new leaves and the old roots merged over, each once, in ascending order, and nothing else |
| `Landings.DestroyedIs` | src/util/mod.rs:153-183 | for plain additions the listed roots are the empty ones that are no roots of the grown forest, lowest row first, all within reach of the masks |
| `HolesFilled.PruneAdd` | src/stump/mod.rs:337-377 | adding to a forest with empty roots is adding to one with leaves in their place and deleting these leaves afterwards |
| `Growth.AddStable` | src/stump/mod.rs:356-370 | an addition leaves every old subtree at its row and offset if no root is empty |
| `Stumps.Remove` | src/stump/mod.rs:305-326 | for every proof the outcome of the hashing loop on translated targets and deletions; conservation on every proof, completeness on every honest one |
| `Stumps.MatchRoots` | src/stump/mod.rs:234-242 | the loop over the roots consumes all computed pairs if and only if their old hashes occur among the roots, with multiplicity |
| `Soundness.ReplaceSound` | src/stump/mod.rs:234-248 | if all computed roots are consumed the new root hashes are those of the forest without the deleted leaves |
| `Stumps.RootsSound` | src/stump/mod.rs:225-265 | from there to the whole transition |
| `Stumps.Modify` | src/stump/mod.rs:225-265 | for every proof: Ok exactly if no sibling is missing and the old hashes of the computed roots occur among the roots, each pair then replacing the first root with its old hash; whenever it is Ok for deleted hashes of leaf kind, each deleted hash is a distinct live leaf and the new stump commits to exactly the forest without them and with the additions; every honest proof, in either coordinate system, is accepted; `new_del` is exact on honest proofs and in order, what was given first |
| `ProofMoves.NeededMoves` | src/proof/mod.rs:867-912 | a surviving needed position is needed, where it moves to, after the deletion |
| `ProofMoves.NeededFrom` | src/proof/mod.rs:867-912 | every position needed after the deletion is where a surviving needed one moves to |
| `ProofMoves.NeededInjective` | src/proof/mod.rs:867-912 | no two of them move to the same place |
| `ProofRemovals.RefreshProof` | src/proof/mod.rs:873-912 | the two loops collect exactly the surviving needed positions, each with its hash after the deletion |
| `ProofRemovals.UpdateProofRemove` | src/proof/mod.rs:850-931 | equals proving again, for any block of leaves in any rows on which `calc_next_positions` is right: the honest proof, in the forest after the deletion, for exactly the cached leaves that survive, with ascending targets |
| `ProofAdditions.MaybeRemap` | src/proof/mod.rs:822-846 | positions keep row and offset when the forest gets more rows |
| `Regrowths.MoveOver` | src/proof/mod.rs:762-767 | the loop over `to_destroy` moves targets and proof positions over the destroyed roots one by one, which is the same as over all at once |
| `Regrowths.OldStays` | src/proof/mod.rs:752-767 | every old subtree is found in the grown forest where remapping and moving put it |
| `Regrowths.OldNotNew` | src/proof/mod.rs:793-807 | what was below a root before is at no position of `new_add` |
| `Regrowths.NeededSource` | src/proof/mod.rs:793-807 | every position needed afterwards is in `new_add`, or was needed before |
| `ProofAdditions.Remember` | src/proof/mod.rs:770-778 | for any `remembers`, what the single pass over the new nodes finds (`Taken`): every listed leaf up to the first that does not come after those before it, and nothing from there on |
| `ProofAdditions.RemembersAll` | src/proof/mod.rs:770-778 | every listed leaf is found if and only if the places of the listed leaves of the block increase |
| `ProofAdditions.CompleteProof` | src/proof/mod.rs:793-807 | never misses a hash: it fills every needed position from `new_add` or from what was kept |
| `ProofAdditions.UpdateProofAdd` | src/proof/mod.rs:726-818 | equals proving again, empty roots included: from exact update data, the honest proof in the grown forest for exactly the old targets and the listed leaves that are found, with ascending targets |
| `ProofMaintenance.ModifyFeedsUpdate` | src/proof/mod.rs:699-724 | what `Stump::modify` reports of an accepted block with plain additions is what `update` needs |
| `ProofMaintenance.Update` | src/proof/mod.rs:699-724 | both steps: the honest proof in the forest after the block, for exactly the surviving cached leaves and the listed new ones that are found, with ascending targets |
| `Clients.Follow` | src/proof/mod.rs:699-724 | one block at a client: `Stump::modify` accepts it, and what it reports brings the cached proof up to date; both stand for the same forest afterwards, and the targets ascend |
| `Clients.FollowRun` | src/proof/mod.rs:699-724 | over whole runs from empty: after the last block the cached proof is the honest proof, in the forest that the run describes, for exactly the remembered leaves that are still live, with ascending targets |
| `NodeHeap.TreeNode.RecomputeHashes` | src/mem_forest/mod.rs:111-124 | after a leaf has been cut out, refreshing the hashes upwards makes every cached hash right again |
| `MemForests.MemForest.constructor` | src/mem_forest/mod.rs:217-225 | the empty forest is valid |
| `MemForests.MemForest.AddSingle` | src/mem_forest/mod.rs:576-610 | keeps all links, hashes and the map; the forest is the old one with the leaf carried in |
| `MemForests.MemForest.DelSingle` | src/mem_forest/mod.rs:527-574 | keeps all links, hashes and the map; the forest is the old one with the leaf taken out and its sibling promoted, or with an empty root |
| `MemForests.MemForest.PromoteSibling` | src/mem_forest/mod.rs:545-571 | the same for a leaf with a sibling, whether its parent is a root or not |
| `MemForests.MemForest.Add` | src/mem_forest/mod.rs:612-616 | all leaves of a list, in order |
| `MemForests.MemForest.Del` | src/mem_forest/mod.rs:425-450 | succeeds exactly for distinct live leaves, and then takes out these; changes nothing if one is not live; if all are live and one is listed twice, the leaves up to the lowest one listed twice are gone |
| `Blocks.RepeatStops` | src/mem_forest/mod.rs:439-448 | in the order of positions the loop meets a deleted leaf again first at the lowest leaf listed twice |
| `MemForests.MemForest.Modify` | src/mem_forest/mod.rs:382-386 | one block: deletions, then additions, with the exact map afterwards; a block that fails adds nothing, and changes nothing unless all its deletions are live and one is listed twice, when exactly the leaves up to the lowest such one are gone |
| `MemForests.MemForest.GetPos` | src/mem_forest/mod.rs:461-525 | the position found for a node carries its subtree |
| `MemForests.MemForest.GrabNode` | src/mem_forest/mod.rs:389-423 | finds node, sibling and aunt at every occupied position, the root at every root position, empty or not, and nothing at an empty position below a root |
| `MemForests.MemForest.NodeRoundTrip` | src/mem_forest/mod.rs:389-525 | `get_pos` and then `grab_node` leads back to the node |
| `MemForests.MemForest.PositionRoundTrip` | src/mem_forest/mod.rs:389-525 | `grab_node` and then `get_pos` leads back to the position |
| `Lookups.LookupInverse` | src/mem_forest/mod.rs:389-525 | no other node has the subtree of the position and no other position that of the node, so the two lookups are inverse |
| `MemForests.MemForest.GetHash` | src/mem_forest/mod.rs:299-303 | the hash of the subtree at a position |
| `MemForests.MemForest.Prove` | src/mem_forest/mod.rs:321-342 | succeeds exactly for live leaves; positions in 63 rows and the hashes at exactly the needed positions |
| `Blocks.ProvesHonest` | src/mem_forest/mod.rs:321-342 | for distinct leaves this is an honest proof for these leaves |
| `ForestHeap.IndexIsLive` | src/mem_forest/mod.rs:584-584 | the map knows exactly the live leaves |
| `ForestHeap.DataUnique` | src/mem_forest/mod.rs:533-567 | comparing cached hashes compares nodes |
| `Walks.TreeHeights` | src/mem_forest/mod.rs:576-610 | the tree of a row is at most that high |
| `Walks.DescendTurns` | src/mem_forest/mod.rs:505-525 | walking down along the collected turns reaches the position of the node |
| `Serialization.WriteOne` | src/mem_forest/mod.rs:91-109 | appends the bytes of the subtree, the first eight of which are 1 for a leaf and 0 for a branch, least significant first |
| `Serialization.TreeBytesParts` | src/mem_forest/mod.rs:91-109 | these are node type, hash, left subtree, right subtree |
| `Streams.WordByte` | src/mem_forest/mod.rs:92-95 | byte i of a word is its i-th from the least significant end |
| `Streams.HashParts` | src/node_hash/mod.rs:286-297 | a hash is a tag, 0 for empty, 1 for a placeholder, 2 otherwise, and then the digest |
| `Serialization.Serialize` | src/mem_forest/mod.rs:258-267 | appends leaf count and number of roots in eight bytes each, least significant first, and then the trees |
| `Streams.TreesBytesConcat` | src/mem_forest/mod.rs:262-264 | the trees one after the other |
| `Streams.TreeBytesUnique` | src/mem_forest/mod.rs:91-109 | written trees are self-delimiting: the same bytes are no other tree, whatever follows |
| `Serialization.StoredUnique` | src/mem_forest/mod.rs:258-267 | the same for whole forests |
| `Streams.ReadHash` | src/node_hash/mod.rs:307-330 | reads back every hash that was written, and consumes exactly its bytes; fails exactly on an unknown tag and on a stream that is too short |
| `Serialization.ReadOne` | src/mem_forest/mod.rs:131-184 | rebuilds hashes, links and leaf map of a written tree and consumes exactly its bytes |
| `Serialization.Deserialize` | src/mem_forest/mod.rs:280-296 | rebuilds a valid forest with the same leaf count and the same trees from what `serialize` wrote for any well-formed forest |
| `Runs.Step` | src/stump/mod.rs:225-265 | a block with distinct live deletions and fresh additions: `prove`, `Stump::modify` and `MemForest::modify` all succeed and stay in step |
| `Runs.Run` | src/mem_forest/mod.rs:321-386 | after every block of every legal run from empty forests the stump has the leaf count and the root hashes of the `MemForest`, in order, empty roots included |
| `Runs.LegalApplied` | src/mem_forest/mod.rs:382-386 | what is live after a block, and that the forest stays well-formed |
| `NieceHeap.PollardNode.Sibling` | src/pollard/mod.rs:350-357 | finds the sibling among the nieces of the aunt |
| `NieceHeap.PollardNode.Children` | src/pollard/mod.rs:337-344 | the sibling's nieces, or a root's own, are the children |
| `NieceHeap.PollardNode.Parent` | src/pollard/mod.rs:305-317 | finds the parent through aunt and grandparent |
| `NieceHeap.PollardNode.ShouldRemember` | src/pollard/mod.rs:325-335 | whether a way along the nieces leads to a marked node without nieces |
| `NieceHeap.JoinedOk` | src/pollard/mod.rs:1134-1168 | swapping the nieces of two roots and giving them a new root for aunt keeps the encoding |
| `Pollards.SwapAndAdopt` | src/pollard/mod.rs:1136-1151 | swapped nieces get their new holder for aunt |
| `Pollards.JoinRoots` | src/pollard/mod.rs:1125-1168 | two roots become the children of a new one |
| `Pollards.DetectRootRow` | src/pollard/mod.rs:991-1006 | row of the root, depth below it, and the digits of the offset |
| `Pollards.Pollard.AddSingle` | src/pollard/mod.rs:1100-1176 | for remembered leaves: keeps the encoding and the map; the forest is the old one with the leaf carried in |
| `Pollards.Pollard.Add` | src/pollard/mod.rs:767-771 | after any remembered additions the encoded forest is the old one with the leaves added, and its root hashes are those of `Stump::add` |
| `PollardRows.RowRoot` | src/pollard/mod.rs:1172-1172 | row by row, the array holds the root of that row, if there is one |
| `Pollards.Pollard.Roots` | src/pollard/mod.rs:672-677 | all root hashes, smallest tree first |
| `Pollards.Pollard.GrabPosition` | src/pollard/mod.rs:885-907 | at every position below a root the node and its sibling; at a root position the root twice |
| `Pollards.Pollard.GetPos` | src/pollard/mod.rs:1219-1270 | the position found for a node carries its subtree |
| `PollardWalks.NieceLookupInverse` | src/pollard/mod.rs:1219-1270 | no other node has the subtree of the position and no other position that of the node |
| `Pollards.Pollard.NodeRoundTrip` | src/pollard/mod.rs:885-1270 | `get_pos` and then `grab_position` leads back to the node |
| `Pollards.Pollard.PositionRoundTrip` | src/pollard/mod.rs:885-1270 | `grab_position` and then `get_pos` leads back to the position |
| `Pollards.Pollard.GetHash` | src/pollard/mod.rs:1008-1013 | the hash of the subtree at a position |
| `Pollards.Pollard.BatchProof` | src/pollard/mod.rs:682-718 | succeeds exactly for known leaves; the same proof as `MemForest::prove` |
| `Pollards.Pollard.ProveSingle` | src/pollard/mod.rs:720-732 | succeeds exactly for known leaves; the hashes are those of the honest proof if and only if the leaf is no root, and a root comes with its own hash |
| `Pollards.Pollard.ProveSingleInner` | src/pollard/mod.rs:1082-1098 | following the aunts collects the siblings' hashes on the way up |
| `Forest.MerkleInjective` | src/node_hash/mod.rs:268-273 | distinct trees have distinct hashes |
| `Forest.BlockWellFormed` | src/mem_forest/mod.rs:382-386 | a block keeps the shape of the forest and its leaves distinct |

## Left out

- DestroyedRoots.AddPosition: what the moves mean for destroyed roots so high that the masks of `remove_bit` do not reach.
- Landings.NewAddData: what `new_add` means if in some round the list of destroyed roots is wrong, or the masks do not reach.
- Landings.DestroyedIs: the same additions; `Landings.DestroysExact` says when the list alone is right.
- ProofMaintenance.ModifyFeedsUpdate: the same additions.
- Clients.Follow: blocks that are not `Followable`: such additions, or deletions that `calc_next_positions` puts out of order or that are out of reach of the masks.
- Clients.FollowRun: runs with such a block.
- ProofAdditions.UpdateProofAdd: what becomes of a cached proof that is given inexact update data.
- ProofMaintenance.Update: the same, and the deletions that `Clients.Follow` leaves out.
- ProofRemovals.UpdateProofRemove: the same deletions, and blocks that name a position above another.
- ProofUpdates.CalcNextPositions: where a position goes if `detwin` leaves the deletions out of order, beyond the fold that `NextPosition` computes.
- ProofChecks.GetProofSubset: which hashes a proof that is not honest yields; targets in 63 rows above the bottom row, which the code does not translate; the same for `verify` and `update`.
- Pollards.Pollard.AddSingle: leaves that are not to be remembered; the branch for empty roots, which additions alone never make; the position lists it returns.
- Pollards.Pollard.Add: leaves that are not to be remembered, of which the program drops the nodes.
- Serialization.ReadOne: what becomes of streams that `write_one` did not write, beyond ending; an unknown node type, on which the program panics, is a failed read here.
- Streams.ReadHash: the 32 bytes of a digest are laid out by two functions given as parameters, which have to be inverse on the hashes that occur.
- `Pollard`: deletion, `migrate_up`, ingesting proofs, pruning, `from_roots`, serialization.
- `Stump::undo`, serialization of `Stump` and `Proof`, drawing, hex and string conversion, serde, error kinds and messages (an error is `None` or one of the constructors of `Error`).
- SHA-512/256, and with it collisions.
- Overflow checks: shifts and subtractions wrap as in a release build.
- Reference counts: `Rc` and `Weak` are plain references, and an upgrade always succeeds.
- More than 2^61 leaves, and equal leaves.
