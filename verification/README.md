# FastDCS: a verified model of its core

FastDCS is a small distributed computing system. This project models the parts of it that
carry the difficult logic and proves what they promise:

- the red-black tree of `src/libconhash` and the consistent hash built on it
  (`TreeShape`, `TreeOrder`, `RbColour`, `RbRepair`, `RbMemory`, `RbLoop`, `RbLate`,
  `RbUnlink`, `RbTree`, `RbReturn`, `HashRing`, `ReplicaNames`,
  `ConsistentHash`);
- the binary search tree of `src/base/config_bst.cc`: insertion, deletion, balancing by
  way of a vine, destruction by rotations, the copy with an explicit stack, and the
  traverser that finds its place again after the table has changed (`BstBalance`,
  `BstTrail`, `BstMemory`, `BstTable`, `BstTraverser`, `BstSchedule`, `BstCopy`);
- the skip list of `src/base/skip_list.cc` (`SkipChains`, `SkipList`);
- the ring protocol by which the masters agree on a primary master (`RingOrder`,
  `MasterRing`, `MasterRuns`, `MasterAgreement`, `MasterNews`, `MasterSettles`), and the
  splitter their group list comes from (`SplitString`);
- the circular message queue, as a byte buffer (`SignalingQueue`) and as a monitor with
  two condition variables (`QueueMonitor`), with the calls that tie the two (`QueueCalls`),
  and the task leases of the primary master (`TaskLeases`);
- three streaming computations: MD5 (`Md5Stream`, with `Bytes`), the framed receiver
  (`FrameReceiver`) and the configuration parser (`ConfigFile`, with what its lines mean
  in `ConfigLines`), with the table of its bindings (`ConfigTable`).

`Common` holds what several modules need.

`dafny verify dfyconfig.toml` checks everything.

## How the code is modelled

**Nodes are addresses.** The C structures link nodes by raw pointers. A class of the model
holds one memory: a map from addresses to cells (`Tree.mem`, `Table.mem`, `List.links`).
Methods write single fields of single cells in the order of the code. A ghost shape, or a
path with a hole and the shape in the hole, says what the memory stands for; the predicates
`At` tie the two together, parent links and the sentinel included.

**Loops stay loops.** Each fix-up loop, each rotation and each descent is a `while` loop with
the tests of the code. What one turn does is also a function on shapes (`InsertStep`,
`DeleteStep`, `Compress`), and the invariants are proved of that function.

**Protocols are state machines.** The masters' reactions are a function `Handle`; the class
`Master` carries out the handlers of the code and is proved to do what `Handle` says. A run
is any sequence of deliveries, heartbeats and losses. The monitor is treated in the same way,
and `QueueCalls.Play` shows that the byte queue follows any of its runs.

**Decisions where the code is special.**

- `src/libconhash/util_rbtree.c:158-163` installs a new root without setting its parent
  field, and the loop test at `src/libconhash/util_rbtree.c:87` can read that field. The
  model keeps the code as it is: the parent field of the root may hold anything
  (`RbTree.Tree.Sound`). `RbTree.Tree.Insert` is proved wherever that field leads into the
  tree, to the new node, or to a black cell: order, links and count are always right, and
  the result is a red-black tree if and only if it is not the case that the root is its own
  parent and all parents and uncles on the way up from the new leaf are red
  (`RbTree.Tree.Overturns`), which a caller can look up. If the field leads to another red
  node, the loop takes a turn there and rises once more from below, which ends well
  (`RbLate`). `RbReturn.ReturningNodeBreaks` follows the code from the empty tree to a tree
  that is not balanced. While the field leads to a black cell outside the tree
  (`RbTree.Tree.Valid`) nothing can go wrong, and an insertion keeps that if and only if the
  field did not lead to the node inserted. Deletion never reads the field and keeps any
  sound tree sound.
- The consistent hash gets its nodes from `malloc`, which may hand out any address that is
  not in use, freed ones included, with anything in the cell. A flag says whether the
  allocator is `careful`, that is, leaves alone the freed node to which the parent field of
  the root still leads. If it is, all additions of servers are right; if not, the model
  follows the code until the tree is `Upset`: the root is its own parent, or its parent
  field leads to a freed node that is red.
- In a deletion the successor of a node never has a left child, so the branch at
  `src/libconhash/util_rbtree.c:152-153` for that case cannot be taken; the model leaves it out.
- The sentinel's parent field is borrowed during a deletion; the loop invariant of
  `RbTree.Tree.DeleteFixup` carries it (`HoleParent`).
- The level of a skip list falls to -1 when the list becomes empty
  (`src/base/skip_list.cc:296-301`) and is 0 before the first insertion; the invariant
  `Topped` has both.
- `src/server/enviroment.cc:153-154` uses an iterator after erasing its entry; the model
  moves the finished entry to the completed ones, as intended.
- `src/server/master.cc:112-120` copies, exports and clears the completed tasks without one
  lock for all of it; the model takes this as one step (`TaskLeases.Table.Export`).
- `src/server/connector.cc:72-73` has the length prefix of the sending side commented out;
  the framing property is about the receiver and a stream of framed messages.
- The bounds of the token buffer in `src/base/config_file.cc` are off by one (for example at
  line 166); the buffer of the model grows as needed.
- Substring searches in lists of addresses (`src/server/master.cc:207`,
  `src/server/master.cc:678`) are membership of an address in a list of addresses.
- The counters `size` and `ivnodes` of the red-black tree and the consistent hash count
  modulo 2^32; MD5 counts bits in two words modulo 2^32, the shift of the length included;
  the byte count of the receiver is a word modulo 2^32.
- Where `compare` functions appear in the code, keys are integers and the function is their
  order. `ConfigTable.NumberOrdered` shows that strings up to a length, in the order of
  `strcmp`, are such integers; the table of the configuration parser is a tree of this kind.

## Model

| member | source | states |
|---|---|---|
| RbTree.Tree.Insert | src/libconhash/util_rbtree.c:49-80 | wherever the root's parent field leads in the tree: the node goes behind every node with a key that is not greater, the order of the others, all links and the count modulo 2^32 are right, and the tree is red-black if and only if it is not the case that the root is its own parent and all parents and uncles above the new leaf are red; the field keeps its value, and leads to a black cell outside the tree again if and only if it did and not to the node inserted; the null node and the sentinel are ignored |
| RbTree.Tree.InsertFixup | src/libconhash/util_rbtree.c:83-132 | from any tree with one possible red-red edge at the hole the loop ends in a tree with the same in-order sequence, touching only tree nodes, and that tree is red-black if and only if the recolouring does not come up to a root that is its own parent |
| RbRepair.InsertStepKeeps | src/libconhash/util_rbtree.c:87-129 | each turn of the insert loop, in all six cases, keeps the one-fault invariant and gets nearer to the root |
| RbRepair.InsertEnds | src/libconhash/util_rbtree.c:131 | where the insert loop stops, painting the root black gives a red-black tree |
| RbTree.Tree.Delete | src/libconhash/util_rbtree.c:134-212 | deleting any node of any valid tree takes exactly that node out of the in-order sequence, clears its links, and leaves a valid tree |
| RbTree.Tree.DeleteFixup | src/libconhash/util_rbtree.c:215-278 | from any tree that lacks one black node at the hole, the hole possibly empty and standing on the sentinel, the loop ends in a red-black tree with the same in-order sequence |
| RbRepair.DeleteStepKeeps | src/libconhash/util_rbtree.c:231-274 | each turn of the delete loop with a black sibling keeps the double-black invariant and makes the measure smaller |
| RbRepair.BlackSiblingKeeps | src/libconhash/util_rbtree.c:223-229 | a red sibling is turned into a black one without disturbing the invariant |
| RbRepair.DeleteTurnKeeps | src/libconhash/util_rbtree.c:218-276 | a whole turn of the delete loop keeps the in-order sequence, the set of nodes and the invariant, and the measure falls |
| RbRepair.DeleteEnds | src/libconhash/util_rbtree.c:277 | where the delete loop stops, painting the hole black gives a red-black tree |
| RbUnlink.InnerOrder | src/libconhash/util_rbtree.c:149-205 | putting the successor in the place of a node with two children removes just that node from the order |
| RbUnlink.UnlinkInner | src/libconhash/util_rbtree.c:165-206 | the link writes that splice out the successor and put it in place of the node, in the order of the code, give the memory of the new tree, also when the successor is the right child itself |
| RbTree.Tree.LeftRotate | src/libconhash/util_rbtree.c:280-304 | the writes of a left rotation give the memory of the rotated tree, wherever in the tree it happens |
| RbTree.Tree.RightRotate | src/libconhash/util_rbtree.c:306-330 | the same for a right rotation |
| RbLate.InsertStepRises | src/libconhash/util_rbtree.c:92-97 | on the way up the red uncles say whether the recolouring comes up to the root, and what it leaves at the root has two black children, neither with two red ones |
| RbLate.LateStart | src/libconhash/util_rbtree.c:87-129 | if the root's parent field then leads to a red node, the turn there ends the repair, or leaves one possible red-red edge at least two levels below the root |
| RbLate.LateStepKeeps | src/libconhash/util_rbtree.c:87-129 | from there each turn gets nearer to the root and never comes up to its children |
| RbLate.LateEnds | src/libconhash/util_rbtree.c:131 | where the loop stops then, painting the root black gives a red-black tree |
| RbReturn.OwnParent | src/libconhash/util_rbtree.c:87-129 | if the root is its own parent and the recolouring comes up to it, the loop takes another turn and leaves the tree unbalanced, for every tree |
| RbReturn.ReturningNodeBreaks | src/libconhash/util_rbtree.c:158-163 | keys 10 and 20 inserted, 10 deleted, the same node inserted again, 5 and 1 inserted: the writes of the code give a red-black tree up to 5 and a tree that is not balanced after 1; there the root is its own parent and the uncles are red |
| RbTree.Tree.Logarithmic | src/libconhash/util_rbtree.c:83-132 | in every valid tree 2^height is at most (n + 1) squared, that is, the height is at most 2 log2(n + 1) |
| RbColour.HeightBound | src/libconhash/util_rbtree.c:83-132 | the height is bounded by twice the black height, and 2^(black height) by the number of nodes plus one |
| RbTree.Tree.Search | src/libconhash/util_rbtree.c:332-343 | a node with the key is found if there is one, and NULL is returned just when there is none |
| RbTree.Tree.Lookup | src/libconhash/util_rbtree.c:345-362 | the first node in order whose key is at least the given one, or the first node of all, or NULL for an empty tree |
| RbTree.Tree.SubtreeMin | src/libconhash/util_rbtree.c:29-37 | the first node of a subtree in order, or NULL for the sentinel |
| RbTree.Tree.MidTravel | src/libconhash/util_rbtree.c:439-458 | the travel visits the nodes in order, each once |
| TreeOrder.InsertionMembers | src/libconhash/util_rbtree.c:62-73 | an insertion into a sorted sequence adds the new node and nothing else |
| TreeOrder.InsertionSorted | src/libconhash/util_rbtree.c:62-73 | a leaf at the place the descent finds is that insertion, and the order stays sorted |
| TreeOrder.OwnerFound | src/libconhash/util_rbtree.c:345-362 | the place where the lookup ends splits the order at the first key that is at least the given one |
| ConsistentHash.ConHash.AddNode | src/libconhash/conhash.c:44-57 | adding a server succeeds exactly for an initialised one that is not in, sets its flag, and adds the keys of its replicas to the ring, keys already taken excepted: of all of them if the allocator is careful, and otherwise of as many as the tree is not upset for |
| ConsistentHash.ConHash.Malloc | src/libconhash/conhash_inter.c:79-96 | a new tree node has any address that is not in use; a careful allocator leaves out the one to which the root's parent field leads |
| ConsistentHash.ConHash.DelNode | src/libconhash/conhash.c:59-72 | deleting a server succeeds exactly for one that is in, clears its flag, and removes just its own keys among its replicas' hash values |
| ConsistentHash.ConHash.Lookup | src/libconhash/conhash.c:74-89 | the server of the least key not below the object's hash, around the circle; none just when the count is zero |
| ConsistentHash.ConHash.AddReplicas | src/libconhash/conhash_inter.c:35-54 | the loop over the replicas adds exactly the free keys, one tree node each, and counts them; it stops early only at an upset tree, and never with a careful allocator |
| ConsistentHash.ConHash.DelReplicas | src/libconhash/conhash_inter.c:56-77 | the loop over the replicas deletes exactly the nodes that carry this server |
| ConsistentHash.ConHash.RingSize | src/libconhash/conhash_inter.c:35-77 | the tree has exactly one node for each key of the ring |
| ConsistentHash.ConHash.OwnerIsOwnerKey | src/libconhash/util_rbtree.c:345-362 | what the tree lookup returns is the owner of the hash value on the ring |
| ConsistentHash.ConHash.Fini | src/libconhash/conhash.c:26-36 | the loop that deletes the root ends with an empty tree |
| ConsistentHash.ConHash.AddFresh | src/libconhash/conhash_inter.c:35-54 | when the names of the servers differ and fit and the hash function tells their replicas apart, a fresh server gets exactly as many keys as it has replicas, all its own, each replica under the hash value of its name, and takes none from another one |
| ReplicaNames.NameReads | src/libconhash/conhash_inter.c:23-33 | a name that fits the buffer is the name of the server, a dash, and at least three digits that read as the number of the replica, without needless zeros |
| ReplicaNames.NamesDiffer | src/libconhash/conhash_inter.c:23-33 | two names that fit are the same only for the same server name and the same replica |
| ReplicaNames.LongNames | src/libconhash/conhash_inter.c:23-33 | all replicas of a server whose name fills the buffer have the same name |
| ConsistentHash.ConHash.ChangeAll | src/libconhash/conhash.c:44-72 | a run of additions and deletions of servers leaves the ring and the flags that the run on values (`HashRing.ApplyAll`) says, and only servers that are in own keys; if no two replicas have the same hash value, each of them owns all of its keys |
| ConsistentHash.ConHash.JoinAndLeave | src/libconhash/conhash.c:44-72 | after any such run, adding a server and deleting it again gives back the ring and the flags |
| HashRing.OwnerKeyExists | src/libconhash/conhash.c:74-89 | on a ring that is not empty every hash value has an owner |
| HashRing.OwnerKeyUnique | src/libconhash/conhash.c:74-89 | a hash value has just one owner |
| HashRing.AddMovesOnlyToNew | src/libconhash/conhash_inter.c:35-54 | adding a server changes the owner of a hash value only to that server, whatever collides |
| HashRing.DeleteMovesOnlyOwn | src/libconhash/conhash_inter.c:56-77 | deleting a server changes the owner only of hash values that it owned |
| HashRing.AddThenDelete | src/libconhash/conhash_inter.c:35-77 | adding a server and deleting it again gives back the exact ring |
| HashRing.FullRing | src/libconhash/conhash_inter.c:35-77 | if no two replicas have the same hash value, the ring depends on who is in, and not on the run that led there |
| HashRing.FullJoin | src/libconhash/conhash_inter.c:35-54 | a server that joins such a ring gets one key for each of its hash values, and the others keep theirs |
| HashRing.ApplyAllFull | src/libconhash/conhash.c:44-72 | every run of additions and deletions keeps a ring in which the members own all their keys and nobody else owns any |
| HashRing.JoinThenLeave | src/libconhash/conhash.c:44-72 | the same in every state that any run of additions and deletions reaches |
| BstTable.Table.Find | src/base/config_bst.cc:44-60 | finds the node with the key, or NULL just when there is none |
| BstTable.Table.Probe | src/base/config_bst.cc:66-93 | an equal item is returned and nothing changes; otherwise one new node is linked in, in order, and no other node gets another way from the root |
| BstTable.Table.Insert | src/base/config_bst.cc:99-102 | insertion keeps an item with the same key and reports it unless it is the same item |
| BstTable.Table.Replace | src/base/config_bst.cc:108-117 | replacement stores the new item under the key and returns the old one |
| BstTable.Table.Delete | src/base/config_bst.cc:121-165 | finds the item if and only if there is one, removes exactly its node from the in-order sequence, moves no item to another node, takes no node further from the root, and advances the generation |
| BstTrail.DeletedOrder | src/base/config_bst.cc:136-159 | what takes the place of the node, in all three cases, is the tree without it |
| BstTrail.JoinedNoDeeper | src/base/config_bst.cc:136-159 | no node below the deleted one gets deeper |
| BstTable.Table.TreeToVine | src/base/config_bst.cc:608-625 | any tree becomes a vine with the same in-order sequence; the loop ends by a lexicographic size measure |
| BstTable.Table.CompressSpine | src/base/config_bst.cc:629-641 | the pointer writes of the compression are right rotations down the left spine, as many as asked for |
| BstBalance.CompressPass | src/base/config_bst.cc:663-667 | a compression halves the spine and adds one level |
| BstBalance.CompressLeaves | src/base/config_bst.cc:657-661 | the first compression makes the incomplete bottom level |
| BstTable.Table.FullLevels | src/base/config_bst.cc:650-657 | clearing low bits leaves the largest power of two that is at most n + 1 |
| BstTable.Table.VineToTree | src/base/config_bst.cc:645-674 | the real height is at most the computed one, and 2^(height - 1) <= n < 2^height for n >= 1 |
| BstTable.Table.Balance | src/base/config_bst.cc:679-685 | balancing keeps the in-order sequence, no tree with as many nodes is lower, and it gives up exactly for 2^32 nodes or more |
| BstBalance.AndPred | src/base/config_bst.cc:651-656 | x & (x - 1) is smaller than x, zero just at powers of two, and keeps the highest bit otherwise |
| BstTable.SizeBound | src/base/config_bst.cc:676-678 | no tree has more nodes than its height allows |
| BstTable.Table.Destroy | src/base/config_bst.cc:587-605 | destruction by rotations handles every node exactly once, in order, frees all of them, and ends |
| BstCopy.Copy | src/base/config_bst.cc:497-583 | the copy is a valid table of the same shape with every item passed through the copy function, also when the stack overflows and copying restarts on the balanced original |
| BstCopy.Down | src/base/config_bst.cc:518-546 | the loop that copies left links stays in step with the original, or has found a tree higher than the limit |
| BstCopy.Up | src/base/config_bst.cc:548-581 | the loop that copies items and pops pairs stays in step, and ends just when the whole tree is copied |
| BstCopy.MirrorsInorder | src/base/config_bst.cc:497-583 | a mirrored tree has the copied items in the same order |
| BstTraverser.Traverser.First | src/base/config_bst.cc:203-227 | the least item, after a rebalance if the stack is too small |
| BstTraverser.Traverser.Next | src/base/config_bst.cc:362-407 | the item with the least key above that of the current one, or none just when there is none, with a refresh after a change of the table and a rebalance where needed |
| BstTraverser.Traverser.Refresh | src/base/config_bst.cc:169-189 | the stack is rebuilt as the trail of the current node; the bound and the null assertions of the loop hold |
| BstTraverser.Traverser.Retrace | src/base/config_bst.cc:178-188 | walking down by the keys reaches the node with the trail on the stack and never fills it up |
| BstTraverser.TracksThrough | src/base/config_bst.cc:169-189 | a traverser stays usable through the deletion of another item, a rebalance and an insertion |
| BstTraverser.Traverser.Climb | src/base/config_bst.cc:391-403 | popping the stack past finished right subtrees reaches the next node in order, or its end |
| BstTraverser.RunVisitsAll | src/base/config_bst.cc:362-407 | in any run of calls with changes of the table in between, the keys visited ascend, each is in the table at its call, and every key that is there all the time is visited |
| BstSchedule.Drive | src/base/config_bst.cc:203-227 | First and Next, with any deletions of other items, insertions and rebalances between the calls, make a run: each call moves to the least key, or the least one above the current one, of the table as the changes have left it; it fits whenever the nodes there were and the insertions of the schedule are fewer than 2^32 |
| BstSchedule.VisitAll | src/base/config_bst.cc:362-407 | such an iteration visits keys in ascending order, and every item that is there all the time, whenever the nodes and the insertions are fewer than 2^32 |
| BstSchedule.Apply | src/base/config_bst.cc:121-165 | a change of the table leaves the traverser usable and changes the set of keys as it should |
| BstTraverser.Iterate | src/base/config_file.cc:320-334 | without changes in between, iteration gives all items in key order, each once |
| SkipList.List.Insert | src/base/skip_list.cc:208-254 | for any level of the new node the value is stored with the new data and all else is as before; the length grows by one just when the value was not there |
| SkipList.List.Delete | src/base/skip_list.cc:256-306 | succeeds if and only if the value is there, removes just its node, and leaves all else |
| SkipList.List.Contains | src/base/skip_list.cc:308-323 | agrees with membership |
| SkipList.List.Search | src/base/skip_list.cc:325-340 | finds a node for which any monotone search function is zero, if and only if there is one |
| SkipList.List.Look | src/base/skip_list.cc:149-206 | one decision on the way down keeps what the descent knows about the nodes before, between and behind, and about the nodes to be updated |
| SkipList.List.UsedLevels | src/base/skip_list.cc:293-301 | levels are given up down to the highest one that is used |
| SkipList.List.ChainsExact | src/base/skip_list.cc:76-98 | chain l is exactly the subsequence of the nodes of level l or more, for every l |
| SkipChains.ChainExact | src/base/skip_list.cc:76-98 | the same from any node on |
| SkipChains.SpliceIn | src/base/skip_list.cc:245-249 | the link writes for a new node make all chains right again |
| SkipChains.SpliceOut | src/base/skip_list.cc:286-289 | the link writes for a removed node make all chains right again |
| SkipChains.LinksToNext | src/base/skip_list.cc:287-289 | the last node before links to the removed one on a level just when that is on the level |
| SkipList.List.Values | src/base/skip_list.cc:382-389 | the iterator gives all nodes, in ascending order, as many as the length says |
| RingOrder.NextMasterAddress | src/server/tracker.cc:519-541 | the address behind the given one in the group, around the end; the last address if the given one is not in the group |
| RingOrder.FindNextMaster | src/server/tracker.cc:545-563 | for any group and any own address for which the search ends: the first address tried that is reachable, or -1 if the own address comes first; in a group without duplicates that has the own address, the nearest reachable cyclic successor |
| RingOrder.RingStops | src/server/tracker.cc:545-563 | in a group without duplicates that has the own address the search ends |
| RingOrder.StrangerStops | src/server/tracker.cc:545-563 | if the own address is not in the group, the search ends if and only if some master of the group can be reached |
| RingOrder.NextHopNearest | src/server/tracker.cc:545-563 | -1 exactly when no other master is reachable; otherwise no reachable master is nearer |
| MasterRing.Master.ProtocolProcess | src/server/master.cc:181-328 | the handlers for the ring messages do what the reaction function says, state and messages sent |
| MasterRing.Master.StartElection | src/server/master.cc:531-546 | a lone master becomes primary, another one sends an election around |
| MasterRing.Master.StartCoordinator | src/server/master.cc:549-564 | the announcement of the winner |
| MasterRing.Master.AskForTracker | src/server/master.cc:636-650 | the question of a master that knows no primary |
| MasterRing.Master.JoinMasterGroup | src/server/master.cc:580-608 | when a join message is sent, and to whom |
| MasterRing.Master.MasterGroupChanged | src/server/tracker.cc:566-597 | only the primary master announces a change of the group |
| MasterRing.Master.ElectionResult | src/server/master.cc:202-212 | the last address of the group among those the election has passed |
| MasterRing.Winner | src/server/master.cc:205-212 | a winner has been passed by the election; there is none only if no address of the group was |
| MasterRuns.OnePrimary | src/server/master.cc:195-271 | in every state of every run with a fixed set of live masters, each known primary and each result in flight is the last live master of the group, so at most one master takes itself for the primary |
| MasterRuns.AroundSeesAll | src/server/master.cc:667-685 | a message that has come around has been sent by every live master |
| MasterRuns.WinnerLeads | src/server/master.cc:202-212 | the winner of an election that came around is the last live master |
| MasterRuns.TakeSafe | src/server/master.cc:195-328 | every delivery, heartbeat and loss keeps this |
| MasterRuns.MessagesEnd | src/server/master.cc:195-328 | without heartbeats and link failures every run of deliveries is at most as long as a number computed from the messages in flight, even if reachability changes between hops |
| MasterRuns.HandleCost | src/server/master.cc:195-328 | whatever is sent in reaction to a message costs less than the message |
| MasterRuns.TrailFits | src/server/tracker.cc:277-289 | a trail is never longer than the group |
| MasterRuns.BeatCost | src/server/master.cc:165-178 | a heartbeat adds at most one message |
| MasterAgreement.Agreement | src/server/master.cc:195-271 | in every run from a start without a primary master in which something happens and no message is lost: when nothing is in flight any more, every live master knows the last live master of the group as primary master |
| MasterAgreement.DeliveryUnderway | src/server/master.cc:195-328 | every delivery keeps what leads there: a question or an election is on its way while nobody knows, an announcement whose trail knows, or everybody knows |
| MasterAgreement.BeatUnderway | src/server/master.cc:165-178 | so does every heartbeat, and the first one starts it |
| MasterAgreement.ClosesAtOrigin | src/server/master.cc:667-685 | a message closes its circle at the master that started it, and at no other one |
| MasterAgreement.OneBefore | src/server/tracker.cc:545-563 | a live master is the next one of one live master only |
| MasterNews.LearnsPrimary | src/server/master.cc:233-263 | if one live master knows nobody and all others know p, in every run without loss in which anything happens, it knows p when nothing is in flight any more |
| MasterNews.NoElection | src/server/master.cc:233-263 | in all such runs, losses and repeated questions included, no election and no announcement is sent, the others keep what they know, and the one learns nothing else |
| MasterNews.NewMemberTold | src/server/master.cc:233-327 | when all that follows from its question has arrived, every live master other than p has been told by p that the group has changed |
| MasterNews.JoinAnnounced | src/server/master.cc:311-317 | in every run without loss that comes to rest, a join message to a master that is primary all the time makes it tell every other live master |
| MasterNews.Circulates | src/server/master.cc:318-327 | an announced change reaches every live master that it had not passed |
| MasterNews.JoinsNamed | src/server/master.cc:216-263 | a passing announcement, or a question that has come back with an answer, makes its master believe the one named and send it a join message, unless that is itself |
| MasterNews.OnlyPrimaryAnnounces | src/server/tracker.cc:565-580 | in every state of every run, joins go from other live masters to the leader, and a change is announced only by a master that knows itself as primary |
| MasterNews.SentToReachable | src/server/tracker.cc:545-563 | whatever a master can reach, it sends to reachable masters of the group only, and not to itself |
| MasterSettles.QuestionSettles | src/server/master.cc:195-271 | whatever the masters believe: one question, with all that follows from it delivered in any order, leaves its master with what the others agree on and nobody else changed; if none of them believes anything or two differ, it leaves all live masters with the last one of the group |
| MasterSettles.AskingOn | src/server/master.cc:233-263 | a question is answered when all it has passed agree, becomes an election at the first one that differs, and goes on with the first answer otherwise |
| SplitString.SplitUsing | src/utils/split_string.h:73-106 | the path for one delimiter character and the general path compute the same tokens |
| SplitString.SplitChar | src/utils/split_string.h:77-93 | the scan over single characters gives the maximal runs without the delimiter |
| SplitString.SplitAny | src/utils/split_string.h:95-105 | the path with find_first_of and find_first_not_of gives the maximal runs without delimiters |
| SplitString.TokensKeep | src/utils/split_string.h:73-106 | tokens are not empty and hold no delimiter, and together they are the text without its delimiters |
| SplitString.TokensStand | src/utils/split_string.h:73-106 | the tokens stand in the text in order; a character belongs to a token just when it is no delimiter, and two neighbours to the same one just when neither is |
| SplitString.SplitUndoesJoin | src/utils/split_string.h:73-106 | splitting undoes joining of non-empty tokens without the separator |
| SignalingQueue.Queue.Add | src/server/signaling_queue.cc:40-89 | appends the message to the queue of byte strings, or changes nothing, with the exact result and the exact condition for waiting; no unread byte is overwritten across the wrap |
| SignalingQueue.Queue.Put | src/server/signaling_queue.cc:58-88 | the same from the waiting loop on, where a woken producer goes on |
| SignalingQueue.Queue.Write | src/server/signaling_queue.cc:69-81 | the bytes go behind the write position around the end, and no others change |
| SignalingQueue.Queue.Remove | src/server/signaling_queue.cc:95-133 | the oldest message leaves, byte for byte, or is dropped with -1 just when it is too long; nothing changes when the queue is empty |
| SignalingQueue.Queue.RemoveString | src/server/signaling_queue.cc:135-167 | the same into a string, without a limit |
| SignalingQueue.Queue.Signal | src/server/signaling_queue.cc:169-178 | the producer is done, and consumers are woken up just when all are |
| SignalingQueue.Queue.EmptyAndNoMoreAdd | src/server/signaling_queue.cc:180-184 | true just when the queue is empty and all producers are done |
| SignalingQueue.WrittenRead | src/server/signaling_queue.cc:66-81 | writing into the free part keeps every message in the queue and can be read back |
| SignalingQueue.MessagesAppend | src/server/signaling_queue.cc:69-70 | a message behind the others extends the queue by one byte string |
| QueueMonitor.NeverLost | src/server/signaling_queue.cc:53-107 | over all interleavings: while a consumer sleeps every message has a notified consumer; while a producer sleeps at an empty queue some producer is notified; no consumer sleeps when all producers are done |
| QueueMonitor.TakeValid | src/server/signaling_queue.cc:53-184 | every step of every thread keeps this |
| QueueMonitor.FinalExactly | src/server/signaling_queue.cc:180-184 | once EmptyAndNoMoreAdd is true it stays true in every run if and only if no Add is pending |
| QueueCalls.SameQuestions | src/server/signaling_queue.cc:54-103 | the conditions on which the monitor's steps depend are those of the byte queue: room for a message, a message there, all producers done |
| QueueCalls.StepAdd | src/server/signaling_queue.cc:40-89 | Add takes a byte queue that matches the monitor to one that matches the monitor after its step, and waits just when the thread sleeps then |
| QueueCalls.StepAddAgain | src/server/signaling_queue.cc:58-89 | the same when a producer wakes up and goes on |
| QueueCalls.StepRemove | src/server/signaling_queue.cc:95-133 | the same for Remove, called or going on after waiting |
| QueueCalls.StepSignal | src/server/signaling_queue.cc:169-178 | the same for Signal; a broadcast leaves no consumer asleep, and otherwise the sleepers stay |
| QueueCalls.Play | src/server/signaling_queue.cc:40-178 | any run of any threads over a new queue: the byte queue follows the monitor to the end, no wake-up is lost, and what was accepted is what was taken out, in order, and what is still there |
| TaskLeases.Table.AddTask | src/server/enviroment.cc:34-48 | a task is taken in unless one with its id is pending; the promises go on to hold if and only if that is so or the id was never imported before |
| TaskLeases.Table.GetIdleTask | src/server/master.cc:388-433 | the first idle tasks in table order are leased: as many as asked for, or all if there are fewer, and true just when there were enough; a request for less than one gets one, if there is one |
| TaskLeases.Table.IdleTasks | src/server/master.cc:415-415 | the idle tasks are the pending ones that were never granted, and those whose last lease is over |
| TaskLeases.IdleOrder | src/server/master.cc:400-431 | they are in the order of the table |
| TaskLeases.Table.TaskCompleted | src/server/master.cc:435-477 | exactly the first result of each pending task that comes inside its lease is accepted, in order |
| TaskLeases.AcceptedCount | src/server/master.cc:452-475 | the accepted results are those whose task is pending, which come inside its lease, and before which no other result for the task came inside it, in the order in which they came |
| TaskLeases.Table.Accept | src/server/enviroment.cc:147-158 | a result moves its task to the completed ones just when that one is pending and its last lease, counted from the grant, has not run out |
| TaskLeases.Table.Export | src/server/master.cc:111-120 | all completed tasks are exported, in order, and cleared |
| TaskLeases.Table.Promises | src/server/master.cc:388-477 | in every run two grants of a task are more than the timeout apart, results are accepted only inside a lease and once for each task, and the imported tasks are the pending, completed and exported ones, with none in two places |
| TaskLeases.GrantHistory | src/server/master.cc:415-420 | a grant keeps the history in order |
| TaskLeases.AcceptHistory | src/server/master.cc:462-472 | an accepted result lies inside a lease |
| Md5Stream.State.Append | src/libconhash/md5.c:323-358 | the state after appending stands for the message with the new bytes behind it, wherever the pieces end |
| Md5Stream.State.Absorb | src/libconhash/md5.c:339-357 | partial block, full blocks and rest together process the blocks of the waiting bytes and the new ones |
| Md5Stream.State.AddLength | src/libconhash/md5.c:333-337 | the two count words are the bit length modulo 2^64, with the carry |
| Md5Stream.State.Finish | src/libconhash/md5.c:361-381 | behind the message come 0x80, as few zeros as give whole blocks, and eight bytes of the length in bits, low byte first, as in sections 3.1 and 3.2 of RFC 1321; the block function has run over exactly that, and byte k of word i of the digest is byte 4i + k of the result, low byte first |
| Md5Stream.PaddingBytes | src/libconhash/md5.c:363-378 | every byte of the padding |
| Md5Stream.BlocksFold | src/libconhash/md5.c:349-353 | the block function runs over the blocks of the message one after the other |
| Bytes.EncodeBytes | src/libconhash/md5.c:372-380 | byte k of a word is the word divided by the k-th power of 256, modulo 256 |
| Bytes.DecodeSums | src/server/connector.cc:126-127 | four bytes are the sum of the bytes, each times its power of 256, the first one lowest |
| Md5Stream.CountAdds | src/libconhash/md5.c:333-337 | the test for the carry is right for every length |
| Md5Stream.PaddedFits | src/libconhash/md5.c:375-376 | the padding reaches 56 bytes modulo 64, and with the length a whole number of blocks |
| Md5Stream.LengthReads | src/libconhash/md5.c:372-378 | the length field read as a number is the bit length modulo 2^64 |
| Md5Stream.Resume | src/libconhash/md5.c:323-358 | digest and rest of a message are all that the rest of the stream needs |
| Md5Stream.SplitsAgree | src/libconhash/md5.c:323-358 | two states that got the same message in different pieces agree |
| FrameReceiver.Receiver.Receive | src/server/connector.cc:101-145 | a chunk leads to the messages that parsing the stream gives, up to one that the queue refuses; 0 just at the end of the stream, and what is left is the frame that has been begun |
| FrameReceiver.Receiver.Turns | src/server/connector.cc:119-142 | the loop over a chunk: what has gone into the queue and what is left give what parsing the stream gives |
| FrameReceiver.Receiver.Turn | src/server/connector.cc:122-141 | one turn of the loop, with length and body cut anywhere |
| FrameReceiver.ReceiveAll | src/server/connector.cc:101-145 | call after call, for every division of a stream into chunks: the queue gets the messages that parsing the whole stream gives, up to one that it refuses, and the result and what is left are those of the whole stream |
| FrameReceiver.AllReceived | src/server/connector.cc:101-145 | unless a message is too long for the queue, it gets all of them |
| FrameReceiver.Receiver.FillBody | src/server/connector.cc:128-136 | bytes of a body go behind the ones before them; the receiver's count still belongs to its frame if and only if the body so far is shorter than 2^32 - 4 |
| FrameReceiver.ChunksAgree | src/server/connector.cc:101-145 | every division of a stream into chunks gives the same messages |
| FrameReceiver.ParseFramed | src/server/connector.cc:101-145 | a stream of framed non-empty messages gives back the messages, and a length of zero ends it whatever follows |
| FrameReceiver.SizeSums | src/server/connector.cc:126-127 | the length in front of a message is the sum of its four bytes, each times its power of 256, the first one lowest |
| FrameReceiver.RefusedExactly | src/server/connector.cc:139-139 | the result is -1 just when a message in the stream is too long for the queue |
| FrameReceiver.CountTells | src/server/connector.cc:123-136 | the 32-bit byte count tells header from body if and only if the size leaves room for the header |
| Bytes.DecodeEncode | src/server/connector.cc:126-127 | reading the four length bytes undoes writing them |
| ConfigFile.ConfigParse | src/base/config_file.cc:91-290 | the table depends on the text only, not on how it is cut into chunks |
| ConfigFile.ParseChunk | src/base/config_file.cc:95-289 | the loop over a chunk does what the automaton does character by character |
| ConfigFile.FirstBindingSurvives | src/base/config_file.cc:233-288 | a stored binding survives any text |
| ConfigFile.LineParsed | src/base/config_file.cc:99-288 | a line with a quoted key and a quoted value binds the key, unless it is bound |
| ConfigFile.RenderParsed | src/base/config_file.cc:91-290 | rendered lines bind their keys one after the other, the first binding of a key counting |
| ConfigFile.ParseUndoesRender | src/base/config_file.cc:91-290 | rendering a map whose keys and values hold no quote, newline or NUL and parsing the text gives the map back |
| ConfigLines.LineMeans | src/base/config_file.cc:99-288 | a line of words, bare or in quotes, separators and space, with or without a comment, binds the word in front of its last separator to the last word behind it, or to the empty string, unless that key is bound; without a word there, it binds nothing |
| ConfigLines.BareLine | src/base/config_file.cc:182-288 | a bare key, a separator and a bare value, with any space and any comment, bind the key to the value |
| ConfigLines.KeyAndValue | src/base/config_file.cc:99-288 | the same with either of them in quotes |
| ConfigLines.EmptyLine | src/base/config_file.cc:101-152 | a line that is blank or only a comment leaves the table as it was |
| ConfigLines.OpenQuote | src/base/config_file.cc:154-164 | a quote that is not closed ends with the line; with no word between the separator and it the value is empty |
| ConfigLines.NoNewline | src/base/config_file.cc:261-288 | nothing is bound before the end of a line |
| ConfigLines.ParseLines | src/base/config_file.cc:91-290 | a file of such lines, in chunks of any size, gives what the lines bind one after the other |
| ConfigLines.BoundByFirst | src/base/config_file.cc:244-260 | the first line that means a binding of a key decides its value |
| ConfigLines.BoundSomewhere | src/base/config_file.cc:244-260 | and every binding comes from such a line |
| ConfigTable.LoadLines | src/base/config_file.cc:38-303 | the tree holds what the lines of the file bind |
| ConfigTable.PrecedesIs | src/base/config_file.cc:31-36 | the order of the keys: one is the start of the other, or has the smaller character where they first differ |
| ConfigTable.NumberOrdered | src/base/config_file.cc:31-36 | strings up to a length are numbers, in the order of strcmp and one for each string |
| ConfigTable.Config.Probe | src/base/config_file.cc:273-279 | a new pair is bound, unless its key is |
| ConfigTable.Config.Get | src/base/config_file.cc:305-318 | the value of a key of any length, or NULL just when it is not bound |
| ConfigTable.Config.Iterate | src/base/config_file.cc:320-334 | the first pair, then the next one, by the flag and the traverser |
| ConfigTable.Config.All | src/base/config_file.cc:320-334 | the calls give every binding once, in the order of strcmp on the keys, whenever there are fewer than 2^32 of them |
| ConfigTable.LoadChunk | src/base/config_file.cc:95-289 | the loop over a chunk leaves in the tree what the automaton binds |
| ConfigTable.Load | src/base/config_file.cc:38-303 | the tree holds what the text binds, however the text is cut into chunks |
| ConfigTable.LoadedInOrder | src/base/config_file.cc:91-334 | a rendered map, read and iterated, gives every binding once, in the order of the keys, whenever there are fewer than 2^32 of them |

## Left out

- Sockets, epoll, threads, signals, log files and MySQL: reachability, chunks of input and the clock are inputs of the model.
- The generated protocol buffer code and record serialisation: messages are datatypes; the list of online masters in a MASTER_GROUP_CHANGED message and the connections it leads to are not part of the model.
- The user's import, export and computing functions: tasks and results are arbitrary inputs. Imported tasks come with the default lease time 0.
- Allocation failures and the recovery after them; `free` is modelled where a node leaves a structure.
- The MD5 round function and the string hashes: arbitrary functions.
- util_rbtree_check: it skips right subtrees beside an empty left one and compares only neighbours, so it does not define validity.
- util_rbsubtree_max: the mirror image of util_rbsubtree_min.
- ConsistentHash.ConHash.AddReplicas: once the tree is upset, the code goes on where the model stops; freed memory keeps its colour until it is handed out again.
- ReplicaNames.ReplicaName: the replica index is below 2^31, as `%d` needs it; conhash_set_node and the unimplemented conhash_update_node are not modelled.
- BstTable.Table: `bst_count` and `bst_generation` do not wrap around; the bitwise and is defined on unbounded numbers.
- BstTraverser.Traverser: bst_t_prev and bst_t_last mirror Next and First; bst_t_find, bst_t_insert, bst_t_copy and bst_t_replace add no new loop. Deleting the current item of a traverser is not allowed by the code and has no meaning in the model.
- BstCopy.Copy: a partial copy that is given up is dropped; the calls of the destroy function on its items are not modelled. The copied item keeps its key.
- SkipList.LevelOf: the level counter is an 8-bit number in the code; more than 127 successful throws are not modelled. skiplist_destroy and skiplist_inspect only walk along chain 0.
- MasterRuns.OnePrimary: the set of live masters does not change during a run; the code promises a single primary only then. SocketClose, which forgets the primary master, is not a step.
- RingOrder.FindNextMaster: a group without any address ends the program in the source and is not modelled.
- MasterSettles.QuestionSettles: one question at a time and nothing lost; several questions at once among masters that disagree are not followed to the end.
- MasterRuns.MessagesEnd: heartbeats are not bounded, since the code sends one question after another while no primary is known.
- Secondary masters as stores of duplicated tasks (SYNC_TASK_DUPLICATE, REQUEST_TASK_DUPLICATE, forwarding of worker requests): they give up the lease promises by design.
- TaskLeases.Table.Promises: holds while imported ids are new or pending; the source leaves that to the user's import function, and `TaskLeases.Table.AddTask` says that it is exactly what is needed.
- TaskLeases.Table.GetIdleTask: task ids are numbers, and the order of the table is an input, of which the order of the keys in std::map is one.
- FrameReceiver.Receiver.Receive: a failing `recv` is not modelled, and streams are excluded in which 2^32 - 4 bytes of one body have come, since `FrameReceiver.CountTells` and `FrameReceiver.Receiver.FillBody` show that the count fails just then; the queue refuses messages above a capacity and blocks otherwise.
- ConfigFile.ConfigParse: an unterminated quoted string can overwrite the end mark of an earlier token; the buffer behind what was written is taken to end there. Messages about errors are not modelled. The table is a map here; `ConfigTable` has it as a tree.
- QueueMonitor: mutual exclusion is taken for granted, each step runs under the mutex.
- varint32, key codecs, string replacement, the class registry and the mutex wrappers: easy or thin.
