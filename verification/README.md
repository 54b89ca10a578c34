# The distributed cache, modelled and proved

A distributed cache has a master, which places keys on servers by consistent hashing, and cache servers,
which keep them in LRU caches. This project models the algorithms under the networking and proves what they
are for.

| file | what it models |
|---|---|
| `RbShape`, `RbMemory`, `RbTree`, `RbWalk`, `RbReuse` | the red-black tree with parent pointers and a shared sentinel: insert, delete, their fixups and rotations, search, wrap-around lookup, the self-check and the traversal; and what can come of a removed node whose block is used again |
| `RingSpec`, `ConHash`, `CacheDirectory` | consistent hashing: the theorems on a map from hash to owner, the ring kept in the tree, its wrapper, and rebuilding it from a list |
| `LinkedList`, `ServerList` | the list with two sentinels that both servers use, and the circular list of registered servers |
| `Membership`, `Instructions`, `Master`, `Agreement` | the master's protocol as steps on values, what it sends in each step, the handlers on objects, and when a member's ring is the master's |
| `Text`, `Wire`, `Overflow` | the text of an address, the text of an update_hash instruction, and when it no longer fits its buffer |
| `LruSpec`, `LruTrace`, `LruRequests`, `Lru`, `CacheService` | the LRU cache as a sequence, what follows over whole traces of operations and of requests, the cache on list nodes and an index, and the requests and the backup pass of a cache server |
| `Md5` | the streaming layer of MD5 against RFC 1321, and the default hash function |
| `WorkerPool` | the request queue, semaphore and worker threads of both servers, under any interleaving |
| `BlockQueue` | the circular-array queue of the log |
| `Options`, `Sequences` | values that may be missing, and sequences without repetition |

How the models are built:

- What the source changes in place is a class with the same fields; each method's contract ties the new
  state to a function of the old one, and the theorems are about those functions.
- The tree is a set of heap nodes. A ghost shape with a path to the place being worked on (a zipper) says
  which tree the pointers form; `Here(p, t)` means the links are those of the tree `t` at the place `p`. The
  fixup loops keep `OneRed` (one red-red pair, at this place) and `Short` (one black too few below this place).
  The sentinel is a node like any other, so overwriting its parent during deletion is visible, and
  `Hangs` says that the fixup may climb from it.
- The two mirror halves of the rotations and fixups are one piece of code with a side as parameter.
- Hash function, MD5 block function and request payloads are parameters. Each theorem holds for all of them.
- Counters are cut to the source's width where it shows: `size` and `ivnodes` modulo 2^32, the MD5 bit count
  in two 32-bit words with carry.

What is assumed, each where it is needed:

- A freed node is never the same object as a later one. The source does not compare a node with the one that
  the root's parent field names, it only reads that one, and the model stops at the first such read after the
  node has been freed: the result `defined` is then false and nothing more is promised. So it makes no
  difference whether the block has been handed out again in between.
- The master's handlers run one at a time. The operating system does not hand out the descriptor of an open
  registered connection, a newly listed peer has an address of its own, and a connection registers at most once.
- A request to a cache server is one step. `getValue` takes no lock across `hasKey`, `is_dirty` and `get`
  (cache_server/cache_service.cpp:154-180), so another worker can come between them.
- Callers of the LRU cache ask `hasKey` before `get`, and those of the server list ask `isExisted` first, as
  the source's comments demand.

Seven properties one would expect do not hold of the code. Each has its exact condition and a case where it
fails:

- The ring reads freed nodes. Deleting the root of a tree of two leaves the new root's parent pointer on the
  removed node (conhash/util_rbtree.c:178-184), which the ring frees (conhash/conhash_inter.c:81-82), and
  conhash/util_rbtree.c:90 reads its colour when an insertion recolours up to the root. `ConHash.Ring.RootParent`
  says when that pointer names a freed node, and that the ring then has at most three places;
  `ConHash.Ring.AddReplicas` that adding a server reads it exactly when it is there and the ring would end with
  more than three. `RbTree.Tree.Insert` says the same of any tree: exactly when the insertion would make the
  black height grow. Deleting, looking up and tearing down never read it. `ConHash.ThreeLeft` and
  `ConHash.ReadsFreed` are a run that does; `RbReuse.Reuse` is one with the block handed out again, after which
  the tree is unbalanced. The servers never take an address off their rings, so they are safe
  (`Master.MasterServer.JoinRing`, `CacheDirectory.Rebuild`).
- Code 0 of the self-check does not mean a valid tree. It never looks at a right subtree next to an empty left
  one (conhash/util_rbtree.c:466-469), and it compares keys along edges only. `RbWalk.Check` says that the tree
  is valid exactly when the code is 0, the keys are in order throughout, and every right subtree not looked at
  is empty or a red leaf below a black node; `RbWalk.CheckMissesRight` and `RbWalk.CheckMissesOrder` are the
  cases.
- The ring depends on the order of joining (conhash/conhash_inter.c:50). `RingSpec.OrderFreeIff` says that it
  does not exactly when no two servers of the list share a replica hash; `RingSpec.CollisionKeepsFirst` gives,
  for any list with two that do, the two orders.
- The master's ring keeps servers that have disconnected (master_server/master_service.cpp:334-339).
  `Agreement.RingsAgree` says exactly when a member's ring is the master's, `Agreement.DepartedStays` that one
  departed server is enough for it not to be, and `Agreement.RunWithDifferentRings` is a run; while nobody
  disconnects and no listen address is used twice `Agreement.MastersRing` says that it always is.
- An update_hash can be longer than the buffer of 1024 bytes that it is printed into
  (master_server/master_service.cpp:141-151). `Wire.FitsIff` says that it fits exactly when the addresses, each
  with its newline, need at most 1011; `Wire.PrintedArrives` that 45 addresses always fit, `Wire.TooMany` that
  46 of 21 characters do not, and `Overflow.RunThatOverflows` is a run that gets there. What fits is read as it
  was sent, for every address that the servers print.
- Adding an address that is there already destroys the record that its places point to
  (consistent_hash.h:25-33): the map held the only owner of that record, the new record gets none of the places,
  and a lookup that lands on one reads freed memory (consistent_hash.h:58-61). This happens in the servers when
  one comes back under its old listen address, or two connections register the same one.
  `CacheDirectory.Directory.Add` says when a directory stays tidy, that is, keeps every record that its places
  need, and `CacheDirectory.Rebuild` and `Master.MasterServer.RingTidy` that a member's directory and the master's
  are tidy exactly when every address that was added again had no place; without collisions and cut names that
  is, by `CacheDirectory.LastingIff`, when no address was added twice. `CacheDirectory.AddTwice` and
  `Agreement.RunThatComesBack`, five events, are cases where it was.
- `front` of the log's queue does not read the head (log/block_queue.h:85): `BlockQueue.Queue.FrontSlot` says when
  it does, `BlockQueue.FrontMisses` is a case where it does not.

## Model

| member | source | states |
|---|---|---|
| RbTree.Tree.constructor | conhash/util_rbtree.c:25-33 | an empty valid tree |
| RbTree.WrapIs | conhash/util_rbtree.c:83 | the 32-bit counter is exact below 2^32 and starts again there |
| RbTree.Tree.RootParent | conhash/util_rbtree.c:178-184 | the root's parent pointer names a node no longer in the tree exactly when the root of a tree of two was once deleted and the tree has not been empty since; else it names the sentinel |
| RbTree.Tree.Rotate | conhash/util_rbtree.c:329-391 | a rotation turns the subtree, leaves links consistent everywhere, and keeps the in-order sequence |
| RbTree.Tree.Turn | conhash/util_rbtree.c:329-391 | the assignments of a rotation change exactly the fields listed in `Spun` |
| RbMemory.Rotate | conhash/util_rbtree.c:329-391 | any memory that differs from a linked tree by those assignments is linked as the turned tree |
| RbTree.Tree.Insert | conhash/util_rbtree.c:49-84 | from any valid tree a valid tree with the node after all keys not greater than its own, everything else in order, and the black height one greater exactly when the new place is below red nodes with red siblings up to the root; a freed node is read exactly when that is so and the root's parent field names one; null and the sentinel change nothing |
| RbTree.Tree.LowReddens | conhash/util_rbtree.c:90-102 | in a tree of black height 1 an insertion recolours up to the root exactly when there are three nodes |
| RbTree.Tree.FindSlot | conhash/util_rbtree.c:64-71 | the descent ends at the empty place where the key belongs |
| RbTree.Tree.InsertFixup | conhash/util_rbtree.c:87-143 | one red-red pair at most goes in, a balanced tree with a black root and the same order comes out; the loop test reads above the root exactly when case 1 is taken all the way up |
| RbTree.Tree.InsertStep | conhash/util_rbtree.c:90-140 | each iteration keeps "one red-red pair at most, at the node", keeps the order and the black height, and moves towards the root |
| RbTree.Tree.Lift | conhash/util_rbtree.c:96-102 | case 1: recolouring moves the problem to the grandparent |
| RbTree.Tree.Unbend | conhash/util_rbtree.c:105-110 | case 2: the inner child is turned outwards |
| RbTree.Tree.Settle | conhash/util_rbtree.c:111-115 | case 3: recolouring and turning end the problem |
| RbShape.LiftedOneRed | conhash/util_rbtree.c:96-102 | case 1 keeps the invariant of the insert loop |
| RbShape.UnbentOneRed | conhash/util_rbtree.c:105-110 | case 2 keeps it |
| RbShape.SettledOneRed | conhash/util_rbtree.c:111-115 | case 3 keeps it and leaves no red parent |
| RbShape.OneRedBlackened | conhash/util_rbtree.c:141-142 | a black root then makes the whole tree balanced |
| RbTree.Tree.Delete | conhash/util_rbtree.c:146-249 | from any valid tree a valid tree whose in-order sequence is the old one without exactly that node, whose links are cleared; what is above the root changes only when the tree had at most two nodes |
| RbTree.Tree.DropRoot | conhash/util_rbtree.c:178-184 | the root with at most one child goes; its child becomes the black root and its parent pointer still names the removed node |
| RbTree.Tree.DeleteSlim | conhash/util_rbtree.c:156-249 | deleting a node with at most one child |
| RbTree.Tree.DeleteFull | conhash/util_rbtree.c:166-249 | deleting a node with two children: the successor takes its place |
| RbTree.Tree.Mend | conhash/util_rbtree.c:244-248 | a removed black node is made up for by the fixup, a red one leaves nothing to fix |
| RbTree.Tree.Unhook | conhash/util_rbtree.c:191-207 | the substitute, perhaps the sentinel, gets a parent it can climb from |
| RbTree.Tree.TakePlace | conhash/util_rbtree.c:212-241 | the successor takes over the node's place, links and colour |
| RbTree.Tree.TakeOut | conhash/util_rbtree.c:191-207 | a node with at most one child is out of the tree and its child in its place |
| RbTree.Tree.TakeOutSuccessor | conhash/util_rbtree.c:191-241 | the node is out of the tree and its successor in its place |
| RbTree.Tree.Clear | conhash/util_rbtree.c:242 | clearing the links of the removed node disturbs nothing |
| RbTree.Tree.Free | conhash/conhash_inter.c:82 | a node out of the tree may be freed, even the one that the root's parent field names; the tree stays valid |
| RbMemory.ReplaceAt | conhash/util_rbtree.c:212-241 | after those assignments the links are those of the tree with the node replaced |
| RbReuse.InsertsAfterReuse | conhash/util_rbtree.c:64-142 | three insertions, the first into the block of the removed root: the loop runs on beyond the root |
| RbReuse.Unbalanced | conhash/util_rbtree.c:132-138 | the shape they leave is not balanced |
| RbReuse.Reuse | conhash/util_rbtree.c:178-184 | a whole run that gets there from an empty tree |
| RbTree.Tree.DeleteFixup | conhash/util_rbtree.c:252-327 | one black too few at the node, which may be the sentinel, goes in; a balanced tree with a black root and the same order comes out |
| RbTree.Tree.DeleteStep | conhash/util_rbtree.c:256-325 | each iteration keeps "one black too few, here", keeps the order, and moves up or ends the loop |
| RbTree.Tree.RedSibling | conhash/util_rbtree.c:262-268 | case 1: the sibling becomes black |
| RbTree.Tree.BlackNephews | conhash/util_rbtree.c:269-273 | case 2: the problem moves to the parent |
| RbTree.Tree.NearNephew | conhash/util_rbtree.c:276-282 | case 3: the red nephew moves to the far side |
| RbTree.Tree.FarNephew | conhash/util_rbtree.c:283-286 | case 4: the missing black is filled in |
| RbTree.Tree.Repair | conhash/util_rbtree.c:274-288 | cases 3 and 4 end the loop at the root |
| RbShape.NearerShort | conhash/util_rbtree.c:262-268 | case 1 keeps the invariant of the delete loop |
| RbShape.HandedUp | conhash/util_rbtree.c:269-273 | case 2 keeps it |
| RbShape.StraightShort | conhash/util_rbtree.c:276-282 | case 3 keeps it |
| RbShape.FilledBalanced | conhash/util_rbtree.c:283-286 | case 4 makes the subtree balanced |
| RbTree.Tree.SubtreeMin | conhash/util_rbtree.c:35-40 | the first node of a subtree, null on the sentinel, within the height |
| RbTree.Tree.Search | conhash/util_rbtree.c:393-407 | a node with the key, or null exactly when there is none, after visiting at most 2 log2(n+1) nodes |
| RbTree.Tree.Lookup | conhash/util_rbtree.c:409-432 | null exactly on an empty tree, else the first node at or after the key or, failing that, the smallest; at most 2 log2(n+1) nodes on the way down and as many to find the smallest |
| RbShape.LogHeight | conhash/util_rbtree.c:393-432 | a balanced tree of n nodes with a black root is at most 2 log2(n+1) high |
| RbWalk.CheckSubtree | conhash/util_rbtree.c:434-503 | the recursive check computes `CheckShape` |
| RbWalk.Check | conhash/util_rbtree.c:505-528 | a tree is a red-black search tree exactly when the code is 0, its keys are in order and what the check does not look at is at most a red leaf below a black node; then the black height is the true one, the depth the true height or one less, and both fit a short; 1 means a red root, 3 uneven black heights, 4 a red node with a red child, 5 keys out of order |
| RbWalk.CodesMean | conhash/util_rbtree.c:434-503 | the same for the recursive check of a tree with a black root |
| RbWalk.CheckedDepth | conhash/util_rbtree.c:491-498 | with code 0 the greatest depth is the height of the part that is looked at |
| RbWalk.RedCodes | conhash/util_rbtree.c:454-458 | code 4 is given only where a red node has a red child |
| RbWalk.EvenCodes | conhash/util_rbtree.c:499-502 | code 3 is given only where two ways down have different numbers of black nodes |
| RbWalk.CheckMissesRight | conhash/util_rbtree.c:466-469 | a tree with code 0 that is not balanced, because a right subtree is not looked at |
| RbWalk.CheckMissesOrder | conhash/util_rbtree.c:459-482 | a balanced tree with code 0, all of it looked at, whose keys are not in order |
| RbWalk.Travel | conhash/util_rbtree.c:530-542 | the traversal with the copying callback writes the keys in order while there is room |
| RbWalk.GetVnodes | conhash/conhash_util.c:17-36 | the array starts with the smallest keys of the ring in order, as many as fit, and is otherwise unchanged |
| RingSpec.OwnerIs | conhash/util_rbtree.c:409-432 | the circular successor is unique, so it names the owner |
| RingSpec.OwnerAt | conhash/util_rbtree.c:409-432 | a key that hashes to a place belongs to its owner, and one beyond all places to the owner of the first |
| RingSpec.AddingMovesOnlyToNew | conhash/conhash_inter.c:38-60 | when a server joins, a key keeps its owner or goes to the new server, collisions or not |
| RingSpec.RemovingMovesOnlyOwned | conhash/conhash_inter.c:62-86 | when a server leaves, only keys it owned change owner |
| RingSpec.AddThenRemove | conhash/conhash_inter.c:38-86 | joining and leaving restores the map from hash to owner |
| RingSpec.BuiltOwners | conhash/conhash_inter.c:38-60 | without cross-server collisions each replica hash belongs to its server |
| RingSpec.BuiltAnyOrder | conhash/conhash_inter.c:50-58 | then the order of joining does not matter |
| RingSpec.CollisionKeepsFirst | conhash/conhash_inter.c:50-58 | in any list with a colliding pair it does: two orders give the place to different servers |
| RingSpec.OrderFreeIff | conhash/conhash_inter.c:38-60 | the order of joining does not matter exactly when no two servers of the list share a replica hash |
| ConHash.Server.constructor | conhash/conhash.c:50-55 | a node with at most 63 characters of its name, initialised, not in a ring |
| ConHash.ReplicaNumber | conhash/conhash_inter.c:29-36 | the name of a replica is the server's, a dash and its number: digits that denote it, three of them below 1000 |
| ConHash.ReplicaNamesDiffer | conhash/conhash_inter.c:29-36 | no two replicas have one name, neither of one server nor of two |
| ConHash.PlacesTaken | conhash/conhash_inter.c:44-58 | a joining server takes a place for each replica exactly when its replica hashes all differ and none is taken, and otherwise fewer |
| ConHash.JoinTakesAll | conhash/conhash_inter.c:44-58 | so with a hash that never collides, and no hash taken, exactly as many as it has replicas |
| ConHash.Ring.constructor | conhash/conhash.c:7-33 | an empty ring, nothing but the sentinel above the root and nothing else allocated |
| ConHash.Ring.RootParent | conhash/conhash_inter.c:81-82 | the root's parent pointer names a freed node exactly when the tree once went from two nodes to one by deleting its root and has not been empty since, and the ring then has at most three places; else it names the sentinel |
| ConHash.Ring.AddReplicas | conhash/conhash_inter.c:38-60 | every free replica hash becomes the server's, taken ones stay; the tree shows the ring and `ivnodes` counts it; a freed node is read exactly when the root's parent field names one and the ring would end with more than three places |
| ConHash.Ring.AddReplica | conhash/conhash_inter.c:46-58 | one replica; a freed node is read exactly when its hash is free, the root's parent field names one and there are three places |
| ConHash.Ring.DelReplicas | conhash/conhash_inter.c:62-86 | of the server's replica hashes exactly those it owns become free, and their nodes are freed; no freed node is read |
| ConHash.Ring.DelReplica | conhash/conhash_inter.c:71-84 | one replica; afterwards the root's parent field names a freed node exactly when places are left and it did before, or the deleted place was the root and one is left |
| ConHash.Ring.AddNode | conhash/conhash.c:57-73 | 0 and the ring with the server added, flag set; -1 and no change for null, an uninitialised server or one already in; reads a freed node exactly when AddReplicas does |
| ConHash.FirstJoin | conhash/conhash.c:57-73 | on the real ring: a first server has exactly its replicas' places, and all of them |
| ConHash.Ring.DelNode | conhash/conhash.c:75-91 | 0 and the ring without the server, flag cleared; -1 and no change for null, an uninitialised server or one not in; a freed node comes to be named above the root only when a single place is left |
| ConHash.Ring.Lookup | conhash/conhash.c:93-111 | the owner of the key's hash; null exactly on a null object or when the counter reads zero |
| ConHash.Ring.Fini | conhash/conhash.c:35-48 | deleting and freeing roots until none is left terminates with an empty tree and every node freed; no freed node is read |
| ConHash.Discard | conhash/conhash.c:43-44 | deleting and freeing any node of any tree, also below a freed one: the rest in order, nothing else freed |
| ConHash.Ring.Counted | conhash/conhash_util.c:38-45 | `ivnodes` is the number of places and of tree nodes, and every owner is flagged as in the ring |
| ConHash.Ring.NoLeak | conhash/conhash_inter.c:82 | one tree node is allocated for each place, and no other but the sentinel |
| ConHash.ShowCeiling | conhash/conhash.c:104-109 | the tree's ceiling node belongs to the ring's circular successor |
| ConHash.AddThenDelete | conhash/conhash.c:57-91 | adding a server not in the ring and deleting it restores ring, `ivnodes` and the number of allocated nodes, whatever the collisions |
| ConHash.ThreeLeft | conhash/conhash_inter.c:38-86 | a run to a ring of three places whose root names a freed node: two places, the first deleted, two more added |
| ConHash.ReadsFreed | conhash/conhash_inter.c:38-86 | one more replica on that ring reads the freed node |
| CacheDirectory.Directory.constructor | consistent_hash.h:10-13 | an empty directory |
| CacheDirectory.Directory.Add | consistent_hash.h:22-36 | the server joins the ring; the directory keeps every record that its places need exactly when it did before and the address was unknown or its old record owned nothing; a freed tree node is read exactly when AddReplicas does |
| CacheDirectory.Directory.Del | consistent_hash.h:39-52 | a known server leaves ring and map, an unknown one changes nothing; no record is lost |
| CacheDirectory.Directory.Get | consistent_hash.h:55-67 | the name of the key's owner, if the record of that owner is still there; "NULL" when the counter reads zero |
| CacheDirectory.Directory.TidyKept | consistent_hash.h:55-67 | every key's owner has its record exactly when the directory is tidy |
| CacheDirectory.AddTwice | consistent_hash.h:22-52 | an address added twice and deleted once: the record that owns all of its places is destroyed, the places stay |
| CacheDirectory.Rebuild | cache_server/cache_service.cpp:241-256 | the new ring is the one of the listed servers, and reads no freed tree node; no record it needs is destroyed exactly when every address that is listed again had no place |
| CacheDirectory.RingSize | consistent_hash.h:29 | with a hash that never collides, servers with different names have 32 places each |
| CacheDirectory.InjectiveDisjoint | consistent_hash.h:29 | such a hash keeps all servers apart |
| CacheDirectory.LastingIff | consistent_hash.h:22-36 | without collisions and cut names this is so exactly when no address is listed twice |
| CacheDirectory.FollowsStep | consistent_hash.h:22-36 | a directory that follows a list (who owns places, under which address, which records are lost) follows the longer list when one more address is added |
| LinkedList.List.constructor | cache_server/lru.h:34-40 | an empty list, one chain between the sentinels |
| LinkedList.List.AddLast | cache_server/lru.h:55-62 | the chain with the node at its end |
| LinkedList.List.Remove | cache_server/lru.h:65-69 | the chain without the node |
| LinkedList.List.RemoveFirst | cache_server/lru.h:72-78 | null on an empty list, else the first node, and the chain without it |
| ServerList.Members.constructor | master_server/serverList.h:74 | an empty list |
| ServerList.Members.IsExisted | master_server/serverList.h:76-79 | whether the address is listed |
| ServerList.Members.Size | master_server/serverList.h:81 | the number of listed addresses |
| ServerList.Members.Add | master_server/serverList.h:84-89 | the address goes to the end; list and index agree |
| ServerList.Members.Del | master_server/serverList.h:92-97 | the address is out, the order of the others kept |
| ServerList.Members.GetNext | master_server/serverList.h:100-105 | the next address, going round the end |
| ServerList.Members.GetPrev | master_server/serverList.h:108-113 | the previous address, going round the front |
| ServerList.OneCycle | master_server/serverList.h:100-113 | `getNext` goes through every member once before it returns, and `getPrev` is its inverse |
| Membership.ConnectKeeps | master_server/master_service.cpp:273-290 | a new connection keeps the invariant |
| Membership.RegisterKeeps | master_server/master_service.cpp:79-136 | a registration keeps it |
| Membership.RegisterSays | master_server/master_service.cpp:112-133 | after a registration the last member backs up to the new one, the new one to the first, all others as before |
| Membership.DisconnectKeeps | master_server/master_service.cpp:323-358 | a disconnect keeps it |
| Membership.DisconnectSays | master_server/master_service.cpp:341-354 | after a disconnect the predecessor backs up to the successor, all others as before |
| Membership.StepKeeps | master_server/master_service.cpp:273-370 | every step keeps: the tables are mutually inverse, the circle has exactly the registered addresses, each member's last backup instruction names its present successor, each was last sent the present table |
| Membership.RunsKeep | master_server/master_service.cpp:273-370 | so it is in every state of every run |
| Membership.PlayedRun | master_server/master_service.cpp:231-271 | events taken exactly where they may happen make a run |
| Membership.PlayedStep | master_server/master_service.cpp:231-271 | of the arriving events one more is taken, with a step, exactly when it may happen where it arrives |
| Membership.TableElements | master_server/master_service.cpp:143-151 | an update_hash lists exactly the listen addresses of the registered servers |
| Membership.JoinedStay | master_server/master_service.cpp:95-98 | without disconnects these are exactly the servers added to the master's ring, each as often |
| Instructions.ConnectSends | master_server/master_service.cpp:273-290 | a connection is entered if its descriptor is new; nothing is sent and nothing else changes |
| Instructions.RegisterSends | master_server/master_service.cpp:79-136 | what a registration sends, in order: the table once to each listed descriptor, ascending, with the addresses in that order; one move_data to each server registered before; and, unless the server is alone, the backup instructions of the last member and of the new one |
| Instructions.DisconnectSends | master_server/master_service.cpp:323-358 | what a departure sends, in order: the table to those that stay, and, unless there are none, recover_backup to the successor and update_backup to the predecessor; nothing for an unregistered connection |
| Instructions.RecoveryStep | master_server/master_service.cpp:341-348 | exactly the departure of one of two or more servers has a backup recovered, by one server: the one that the departed server was last told to back up to, which is its successor and stays |
| Instructions.RunsRecover | master_server/master_service.cpp:341-348 | so it is in every step of every run |
| Instructions.LastBackupMeans | cache_server/cache_service.cpp:419-430 | what a member was last told to back up to is what the last update_backup to it says |
| Instructions.LastHashMeans | cache_server/cache_service.cpp:402-418 | and its table what the last update_hash to it says |
| Text.PortToText | endPoint.h:32-41 | the decimal digits, none for port 0 |
| Text.DigitsIs | endPoint.h:35-39 | a number in decimal: its last digit after the others, if there are any |
| Text.Sample | endPoint.h:43-49 | an address in full |
| Text.TextToPort | endPoint.h:16-30 | the number that the digits denote, -1 for any other text, 0 for the empty one |
| Text.TextToSocket | endPoint.h:51-74 | the text before the first colon and the number after it, unless that is 0 |
| Text.ParsedIs | endPoint.h:51-74 | any text: without a colon, or with the number 0 behind the first one, nothing is read |
| Text.AddressInjective | endPoint.h:43-49 | no two sockets have the same text |
| Text.AddressBack | endPoint.h:51-74 | an address is read back as it was printed; with port 0 nothing is read |
| Wire.Encode | master_server/master_service.cpp:141-151 | the text of an update_hash, unless it is longer than the buffer |
| Wire.EncodedIs | master_server/master_service.cpp:141-151 | the tag in a line of its own, each address in a line, and a zero |
| Wire.Decode | cache_server/cache_service.cpp:388-418 | the list read from a received buffer |
| Wire.OtherTag | cache_server/cache_service.cpp:390-402 | a text is read as an update_hash exactly when its first line is that tag |
| Wire.ScanLines | cache_server/cache_service.cpp:404-416 | the complete lines of the buffer, in order |
| Wire.RoundTrip | cache_server/cache_service.cpp:402-418 | a list of texts is read as it was written exactly when none of them holds a newline or a zero byte |
| Wire.FitsIff | master_server/master_service.cpp:141-151 | the text fits the buffer exactly when the addresses, each with its newline, need at most 1011 bytes |
| Wire.PrintedArrives | endPoint.h:43-49 | every list of addresses as the servers print them is read as it was written, and 45 of them always fit the buffer |
| Wire.TooMany | master_server/master_service.cpp:141-151 | 46 addresses of 21 characters do not fit the buffer |
| Overflow.TableArrives | master_server/master_service.cpp:138-162 | in every state of the protocol each member's last update_hash is read as the present table; it fits with at most 45 members, and in general exactly when the table needs at most 1011 bytes |
| Overflow.RunThatOverflows | master_server/master_service.cpp:138-151 | a run of 92 events after which the master prints more into the buffer than it holds |
| Agreement.SameRing | cache_server/cache_service.cpp:241-256 | without collisions two lists give the same ring exactly when they name the same servers |
| Agreement.MastersRing | cache_server/cache_service.cpp:402-418 | in a run without disconnects, with distinct listen addresses, what a member decodes from its last update_hash, if that fits the buffer, builds the master's ring: the same owner for every key and no record lost; with addresses that are not cut, only then |
| Agreement.TablesRing | master_server/master_service.cpp:95-98 | without disconnects table and master's ring name the same servers, each as often |
| Agreement.AskFor | cache_server/cache_service.cpp:241-256 | a list sent as text if it fits the buffer, read and rebuilt: where no record is lost the answer is the owner's name on the ring of the list, and the master's that on the ring of those who joined; the same where the rings are |
| Agreement.AskBoth | master_server/master_service.cpp:55-63 | end to end on the objects: after any arriving events without a disconnect and with distinct listen addresses, master and member answer the same for every key, the name of the key's owner |
| Agreement.RingsAgree | master_server/master_service.cpp:323-355 | in any state, with or without disconnects before it, a member's ring is the master's and neither has lost a record exactly when both name the same servers and no address was used twice |
| Agreement.DepartedStays | master_server/master_service.cpp:334-341 | a server that joined and is in the table no longer still owns its places on the master's ring and none on a member's |
| Agreement.RunWithDifferentRings | master_server/master_service.cpp:323-341 | a run of five steps after which they differ, whatever the hash function |
| Agreement.RunThatComesBack | master_server/master_service.cpp:95-98 | a run of five steps, a server that comes back, after which the record that owns the master's places is gone, whatever the hash function |
| Agreement.DisconnectKeepsJoined | master_server/master_service.cpp:334-341 | a disconnect takes the server from the table but not from the ring |
| Master.MasterServer.constructor | master_server/master_service.cpp:79-98 | the master starts with empty tables, list and ring |
| Master.MasterServer.Connect | master_server/master_service.cpp:273-290 | the handler is a `Connect` step |
| Master.MasterServer.Register | master_server/master_service.cpp:79-136 | the handler is a `Register` step, on the real tables, list nodes and ring |
| Master.MasterServer.Admit | master_server/master_service.cpp:82-133 | its body, with the instructions it sends |
| Master.MasterServer.Enrol | master_server/master_service.cpp:82-98 | tables, list and ring take the new server |
| Master.MasterServer.JoinRing | master_server/master_service.cpp:95-98 | the master's ring is that of all who joined, and no freed tree node is read |
| Master.MasterServer.RingTidy | master_server/master_service.cpp:95-98 | no record that the master's ring needs is lost exactly while every address that joined again had no place |
| Master.MasterServer.UpdateHash | master_server/master_service.cpp:138-162 | the table by ascending descriptor goes to every descriptor in it |
| Master.MasterServer.NotifyMoves | master_server/master_service.cpp:103-109 | one move_data to each server registered before |
| Master.MasterServer.TellBackups | master_server/master_service.cpp:112-133 | backup instructions to the new server and its predecessor, none to a server alone |
| Master.MasterServer.Take | master_server/master_service.cpp:247-268 | the handler for an event runs exactly when the environment allows the event, and is a step of the protocol |
| Master.Play | master_server/master_service.cpp:231-271 | the event loop takes exactly the arriving events that may happen where they arrive, in order, and goes through a run of the protocol |
| Master.MasterServer.Disconnect | master_server/master_service.cpp:323-358 | the handler is a `Disconnect` step |
| Master.MasterServer.Depart | master_server/master_service.cpp:325-355 | its branch for a registered server |
| Master.MasterServer.Expel | master_server/master_service.cpp:334-339 | tables and list lose the server |
| Master.MasterServer.TellNeighbours | master_server/master_service.cpp:343-354 | recover to the successor, backup to the predecessor, unless the server was alone |
| Lru.Cache.constructor | cache_server/lru.h:201-203 | an empty cache of any capacity |
| Lru.Cache.Set | cache_server/lru.h:209-227 | an old entry of the key goes, else a full cache drops the least recently used; the new clean entry comes last; with capacity 0, and only then, a null pointer is followed |
| Lru.Cache.Get | cache_server/lru.h:230-235 | the value, and the entry moved to the end as it is |
| Lru.Cache.HasKey | cache_server/lru.h:237-239 | whether the key is listed |
| Lru.Cache.KeysOneshot | cache_server/lru.h:241-251 | the keys, the least recently used first |
| Lru.Cache.SetDirty | cache_server/lru.h:253-260 | the key's entry becomes dirty, nothing else changes |
| Lru.Cache.SetClean | cache_server/lru.h:262-269 | the key's entry becomes clean, nothing else changes |
| Lru.Cache.IsDirty | cache_server/lru.h:271-279 | whether the key is listed and dirty |
| Lru.Cache.MakeRecently | cache_server/lru.h:283-287 | the same node goes to the end |
| Lru.Cache.AddRecently | cache_server/lru.h:290-294 | a new node at the end and in the index |
| Lru.Cache.DeleteKey | cache_server/lru.h:297-302 | the node leaves list and index |
| Lru.Cache.RemoveLeastRecently | cache_server/lru.h:305-309 | the first node leaves list and index |
| Lru.Cache.Find | cache_server/lru.h:317-318 | the index finds each listed key's own node |
| Lru.Cache.Sizes | cache_server/lru.h:317-319 | the map's domain is the listed keys, `size_` their number, at most the capacity |
| LruSpec.StepKeeps | cache_server/lru.h:209-279 | every operation keeps the keys distinct and within the capacity |
| LruSpec.Inclusion | cache_server/lru.h:209-309 | after any trace a smaller cache holds a part of what a larger one holds: same values, same dirty bits, same order |
| LruSpec.IncludedSet | cache_server/lru.h:209-227 | one `set` keeps this, with evictions in either, both or neither |
| LruSpec.IncludedGet | cache_server/lru.h:230-235 | one guarded `get` keeps it, also when only the larger cache has the key |
| LruTrace.RecentKeys | cache_server/lru.h:209-251 | the cache always lists the last `cap` distinct keys that were set or found, in the order of use |
| LruTrace.RecencyMeaning | cache_server/lru.h:241-251 | that order is each key once, by its last use |
| LruTrace.Contents | cache_server/lru.h:209-279 | each listed value is the one last set, each dirty bit the one last asked for, whatever the capacity |
| LruTrace.LastSetMeans | cache_server/lru.h:209-227 | the value last set is that of the last `set` of the key |
| LruTrace.LastMarkMeans | cache_server/lru.h:253-279 | a key is marked dirty exactly when a `set_dirty` of it has not been followed by a `set` or a `set_clean` of it |
| LruTrace.DirtyStep | cache_server/cache_service.cpp:154-197 | a dirty entry survives every request unchanged, unless the request evicts it |
| LruTrace.DirtyStays | cache_server/cache_service.cpp:154-197 | over any run that does not evict it, a dirty key keeps value and bit and is answered as dirty |
| LruTrace.TouchFirst | cache_server/cache_service.cpp:280-283 | getting the first key turns the list by one |
| LruTrace.ReplayedIs | cache_server/cache_service.cpp:224-239 | each backup message sets its key, unless the key is dirty |
| LruTrace.ReplayCopies | cache_server/cache_service.cpp:224-239 | replayed into a clean cache of the same capacity, the pairs make its latest entries equal the source list, in order |
| LruRequests.ServedRuns | cache_server/cache_service.cpp:154-197 | a run of requests does to the cache what the accepted operations do |
| LruRequests.AnswersRight | cache_server/cache_service.cpp:154-180 | the answer after any run of requests, from what was last used, set and marked |
| LruRequests.SuccessUses | cache_server/cache_service.cpp:162-167 | a success makes the key the most recently used, with the value answered; any other answer leaves the cache as it is |
| CacheService.Perform | cache_server/lru.h:198-321 | the cache on list nodes and index does on any trace what the sequence does |
| CacheService.GetValue | cache_server/cache_service.cpp:154-180 | DirtyData exactly when the key is listed and dirty, its value when it is listed and clean, NotExist when it is absent; only a success changes the order |
| CacheService.SetValue | cache_server/cache_service.cpp:182-197 | a dirty key is left alone, any other is set |
| CacheService.HandleAll | cache_server/cache_service.cpp:154-197 | over any run of requests to a new cache: `getValue` answers with the value that the key was last accepted to be set to exactly when the key is among the last used and not marked dirty since, with DirtyData exactly when it is among them and marked, with NotExist otherwise; the keys listed are the last used |
| CacheService.Update | cache_server/cache_service.cpp:279-285 | the backup pass sends every pair in order and leaves the order as it was |
| CacheService.TakeBackup | cache_server/cache_service.cpp:224-239 | the messages taken in turn are `Replayed` |
| CacheService.Backup | cache_server/cache_service.cpp:263-287 | a whole backup between two caches makes the latest entries of the copy equal the source |
| Md5.State.constructor | conhash/md5.c:312-320 | an empty message, with the starting words of section 3.3 of RFC 1321 |
| Md5.InitialBytes | conhash/md5.c:316-319 | the starting words are those of section 3.3 of RFC 1321 |
| Md5.FoldLaws | conhash/md5.c:351-353 | section 3.4: the words start as these bytes, and each further block is processed with the words of those before it |
| Md5.OneBlock | conhash/md5.c:351-353 | a message of one block is processed once, with the starting words |
| Md5.OneBytePadded | conhash/md5.c:363-378 | sections 3.1 and 3.2 for one byte, in full |
| Md5.State.Append | conhash/md5.c:322-358 | after any call the counters are the bit length modulo 2^64, `abcd` is the fold over the full blocks and the buffer holds the rest |
| Md5.State.Count | conhash/md5.c:333-337 | two 32-bit counters with carry count modulo 2^64 |
| Md5.State.Partial | conhash/md5.c:339-349 | a partial block is filled, and processed when full |
| Md5.State.FullBlocks | conhash/md5.c:351-353 | every full block is processed |
| Md5.State.Finish | conhash/md5.c:360-381 | the digest is that of RFC 1321, sections 3.1, 3.2 and 3.5, with no byte left unprocessed |
| Md5.State.LengthBytes | conhash/md5.c:372-374 | the eight length bytes, taken before padding |
| Md5.State.Output | conhash/md5.c:379-380 | the words, low-order bytes first |
| Md5.Pads | conhash/md5.c:363-378 | the computed number of padding bytes is the least that section 3.1 allows |
| Md5.DigestUnique | conhash/md5.c:360-381 | this determines the digest |
| Md5.SplitIndependent | conhash/md5.c:322-358 | the state does not depend on how the message was cut into calls |
| Md5.DigestPieces | conhash/md5.c:322-381 | a message in any pieces has the digest of the whole |
| Md5.JoinedIs | conhash/md5.c:322-358 | pieces one after the other make the whole message |
| Md5.Digest | conhash/conhash_util.c:8-15 | the digest of a string |
| Md5.HashDef | conhash/conhash_inter.c:11-27 | the sum of the four digest words, within 34 bits |
| WorkerPool.StepKeeps | cache_server/cache_service.cpp:535-593 | every step keeps: tokens balance, the limit holds, first in first out |
| WorkerPool.RunsKeep | cache_server/cache_service.cpp:535-593 | so it is under every interleaving; the queue is never longer than semaphore, woken workers and unposted appends together |
| WorkerPool.NeverEmpty | master_server/master_service.cpp:405-411 | while no wait fails they are equal, so a woken worker never finds the queue empty |
| WorkerPool.NoLostWakeup | master_server/master_service.cpp:401-446 | while a request is queued some thread can bring it on, or every worker is busy |
| WorkerPool.PushAccepted | master_server/master_service.cpp:434-445 | after any interleaving an idle client's request is accepted, last in the queue, exactly when the queue is below its limit |
| WorkerPool.HeadServed | master_server/master_service.cpp:401-446 | after any interleaving some worker can come to take the request at the head, if there is a worker |
| WorkerPool.AllServed | master_server/master_service.cpp:401-446 | so the threads can get from any state to an empty queue, with everything accepted dispatched in order |
| WorkerPool.Pool.AppendStep | master_server/master_service.cpp:434-443 | accepted exactly below the limit, and then queued last; else nothing changes |
| WorkerPool.Pool.PostStep | master_server/master_service.cpp:444 | one token more |
| WorkerPool.Pool.WaitStep | master_server/master_service.cpp:405 | a worker wakes with a token, or without one when the wait fails |
| WorkerPool.Pool.TakeStep | cache_server/cache_service.cpp:540-548 | the oldest request, which leaves the queue and makes the worker busy; none from an empty queue, and the worker waits again |
| WorkerPool.Pool.DoneStep | master_server/master_service.cpp:415-431 | the worker waits again |
| WorkerPool.Perform | cache_server/cache_service.cpp:535-593 | the pool does under any interleaving what the steps on values do |
| BlockQueue.Queue.constructor | log/block_queue.h:20-32 | an empty queue |
| BlockQueue.Queue.Clear | log/block_queue.h:34-41 | empty again |
| BlockQueue.Queue.Push | log/block_queue.h:127-147 | refused exactly when full, else queued last |
| BlockQueue.Queue.Pop | log/block_queue.h:149-168 | the oldest item, or none; the slot at `m_front` then holds the item popped |
| BlockQueue.Queue.Back | log/block_queue.h:90-101 | the newest item, or none |
| BlockQueue.Queue.Congruent | log/block_queue.h:27-31 | `m_back` is congruent to `m_front + m_size` modulo the capacity, from -1 and -1 on |
| BlockQueue.Queue.FrontSlot | log/block_queue.h:77-88 | `front` reads the head's slot exactly when the capacity is 1 and an item has been popped; in a full queue it reads the newest item |
| BlockQueue.FrontMisses | log/block_queue.h:77-88 | after two pushes and a pop `front` finds the item popped, not the head |
| BlockQueue.Fifo | log/block_queue.h:127-168 | what was pushed since the last clear is what was popped followed by what is queued, never more than the capacity |
| BlockQueue.RunOne | log/block_queue.h:34-168 | what one more call does to what is queued and what has come out |
| BlockQueue.Perform | log/block_queue.h:20-168 | the circular array does on any sequence of calls what the bounded queue does |

## Left out

- RbTree.Tree.Insert: inserting, as the same object, a removed node that the root's parent field still names is excluded; keys have no machine width, because they are only compared.
- CacheDirectory.Directory.Del: a new record that gets the address of a destroyed one, and is taken for the owner of its places.
- RbWalk.Check: colours other than 0 and 1, with error code 2, do not exist in the model; for a tree that is not valid and deeper than 32767 black height and depth would not fit the source's shorts.
- ConHash.Ring.AddReplicas: allocation never fails, and the replica name is not cut to 127 characters, because 63 characters, a dash and a replica number are shorter.
- Membership.StepKeeps: handlers are atomic and instructions arrive in the order they are sent; the source runs registrations in worker threads and pauses between sends.
- Master.MasterServer.NotifyMoves: the order of the move_data instructions, which is that of the addresses in the source, is left open.
- Membership.ConnectKeeps: two entries with one address, left by a peer that closes unregistered and comes back from the same port, are excluded.
- Wire.Encode: what happens after a text longer than the buffer has been printed; the model sends nothing then.
- Text.TextToSocket: `inet_pton`, and that the port -1 of a malformed text is stored; a port text too long for a C int.
- CacheService.GetValue: what other workers do between `hasKey`, `is_dirty` and `get`.
- Lru.Cache.Set: what follows a `set` with capacity 0, which the model stops at; a negative capacity, which never fills up, is modelled.
- CacheService.Update: the notice that comes before the pass, and keys evicted by other threads between the snapshot and the `get`; the source would follow a null pointer.
- Md5.State.Append: `md5_process`, the 64 steps on one block, is a parameter; lengths whose sum with the buffer offset overflows a C int are excluded.
- Md5.HashDef: that the ring uses this function; the ring is proved for every hash function.
- BlockQueue.Queue.Pop: waiting and timeouts; what other threads do meanwhile are further calls.
- WorkerPool.StepKeeps: a failing `post` or `lock`.
- Data migration (`move`), the parsing of set_value messages, `GetDistribute`, `conhash_lookup2`, the second cache class `LRUCache`, sockets, logging, configuration and the UDP client.
