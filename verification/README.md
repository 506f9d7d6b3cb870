# Verified models of the native side of IOMonitorDemo

The repository is an Android demo whose native library hooks `open`, `read`, `write` and `close` of other
libraries and collects I/O statistics. Most of its logic is code that it carries with it: the intrusive trees
of `tree.h`, the tail queues of `queue.h`, and the xHook engine that finds and patches function slots of loaded
ELF images. This project states what that code does and proves it with Dafny 4.11.

`dafny verify dfyconfig.toml` checks everything.

| file | what it models |
|---|---|
| `RedBlack.dfy` | red-black trees as values, and trees with a hole: sequence, colours, the step of every fix-up case, height |
| `RBTree.dfy` | the red-black tree of `tree.h` on heap nodes with left, right, parent and colour fields |
| `SplayShape.dfy` | the nodes of the splay tree of `tree.h`, its two assembly trees, and what a turn of its loop does to order and links |
| `SplayBalance.dfy` | the tree and the number of turns a splay ends with as functions of the tree before, and their amortised bound |
| `SplayTree.dfy` | the top-down splay tree on heap nodes |
| `TailQueue.dfy` | the tail queues of `queue.h`; a link address is the first field of a head or the next field of an entry |
| `Rules.dfy` | hook and ignore rules of `xh_core.c` |
| `Refresh.dfy` | the refresh of `xh_core.c`: the merge of the old tree with a stream of memory-map entries into a new tree |
| `AsyncRefresh.dfy`, `AsyncPaths.dfy`, `AsyncLiveness.dfy` | the threads of `xh_core.c` as a state machine: callers, the worker and clear, two mutexes and a condition variable; what each call does before it returns; infinite runs under a fair scheduler |
| `Sleb128.dfy` | the SLEB128 decoder of `xh_elf.c` on words of 32 or 64 bits, and the encoder of DWARF 5, section 7.6 |
| `PackedRelocs.dfy` | the iterator over packed relocations, a packer, and the list the packed groups stand for |
| `SymbolHash.dfy` | both hash functions and both symbol lookups |
| `MemProtect.dfy` | the protection scan and the page arithmetic of `xh_util.c`, and the protections of pages around a patch |
| `ElfHook.dfy` | patching the slots of a symbol, with the protection of their pages read, changed and restored |
| `IoStats.dfy` | the I/O counters of `native-lib.cpp` |
| `Sides.dfy`, `Pathname.dfy`, `Powers.dfy`, `MachineWords.dfy`, `Sequences.dfy`, `Results.dfy` | what several of these share |

How the models are built:

- A heap tree carries a ghost tree value. `Linked` says that the fields of the nodes spell out that value; a
  *context* is the path from a subtree up to the root, and `LinkedCtx` says the same of it. The two colour fix-up
  loops walk up such a context. The order, the links, the colours and the black heights are all part of `Valid()`,
  so a method that keeps `Valid()` and states the new order has kept everything.
- `tree.h` writes every case twice, once per side. Here a `Side` is a parameter and each pair of mirrored branches
  or macros (rotations, RB_NEXT and RB_PREV, the splay links) is one piece of code.
- The stack node `__node` of SPLAY, whose two fields hold the left and the right assembly tree, is an object with the
  same crossed use of its fields.
- Addresses, sizes and decoded words are integers; where such a word can wrap around, the reduction modulo 2^W is
  written out. The width W of a word is a parameter, 32 or 64.
- A compiled regular expression is the set of pathnames it matches. The ELF header check, the outcome of `xh_elf_init`
  and the outcome of a call of `mprotect` are functions given from outside.
- The memory map of a hook has one region for each page. The listing of the kernel joins neighbouring pages with equal
  attributes; the scan depends only on which bytes are covered and on the bits of the regions over a range.

What the code does where its names or comments suggest something else:

- In a refresh the label `check_continue` is followed by `break`, so the first hook rule whose expression matches a
  pathname decides alone (`xh_core.c:377-378`). `Rules.SelectedTooNarrow` gives rules for which a hookable pathname is
  passed over, `Rules.SelectedExact` says exactly when that happens.
- SPLAY_REMOVE returns its argument whenever the keys are equal, even if another node with that key was unlinked
  (`tree.h:189-208`). `SplayTree.SplayHead.Remove` says that the two are the same exactly when the argument was in the
  tree, `SplayTree.SplayHead.RemoveTwin` gives an input where they are not.
- `xh_core_clear` does not reset the flag `xh_core_refresh_thread_do`, so a request made just before it is left to the
  next worker (`xh_core.c:583-600`). `AsyncRefresh.RequestOutlivesClear` is such a run, `AsyncRefresh.ClearLeaves` says
  what the flag means while there is no worker.
- The packed iterator can yield a relocation after it yielded NULL before the announced number was reached, and a NULL
  for a shared addend in a rel section can leave words of the stream unread (`PackedRelocs.NullNotFinal`).
  `PackedRelocs.NullFinal` says for every cursor and every stream when the next call yields a relocation, in numbers of
  words. No caller in the repository asks again.
- A patch restores the protection that all pages of the slot have in common, so a slot that crosses a page boundary can
  take permissions from a page (`xh_elf.c:483-486`, `MemProtect.CrossingChanges`). `MemProtect.ProtectionKept` says
  exactly when all pages keep their protection.
- `xh_util_get_mem_protect` adds address and length as words (`xh_util.c:47`); a range that wraps around is only looked
  at in its first byte (`MemProtect.ScannedExact`, `MemProtect.WrappedPasses`).
- In a refresh the branch "repeated map info when update" cannot be reached: the old and the new tree never share a
  pathname (`Refresh.Core.Merging`, kept by `Refresh.Core.Move` and `Refresh.Core.Create`), so `Refresh.Core.Transfer`
  is never refused.
- `ProxyOpen64` makes its record and drops it (`native-lib.cpp:267-278`).
- `xh_elf_hook` returns 0 when the symbol is not found, and ignores the outcome of initialising the packed iterator
  (`xh_elf.c:983-1003`, `xh_elf.c:1035`).

## Model

| member | source | states |
|---|---|---|
| RedBlack.WholeIsInOrder | app/src/main/cpp/tree.h:343-381 | the sequence around a hole is the in-order sequence of the filled tree, so what a local change keeps is kept for the whole tree |
| RedBlack.RotateInOrder | app/src/main/cpp/tree.h:343-381 | a rotation in either direction keeps the in-order sequence |
| RedBlack.InsertRecolor | app/src/main/cpp/tree.h:416-422 | with a red uncle, recolouring moves the only red-red pair two levels up and keeps all black heights |
| RedBlack.InsertInner | app/src/main/cpp/tree.h:423-428 | the first rotation turns an inner grandchild into an outer one and keeps the insertion invariant |
| RedBlack.InsertRotate | app/src/main/cpp/tree.h:429-430 | recolouring and the rotation about the grandparent leave no red-red pair and unchanged black heights |
| RedBlack.InsertDone | app/src/main/cpp/tree.h:412-449 | when the parent is black or absent, blackening the root gives a red-black tree |
| RedBlack.RemoveSibling | app/src/main/cpp/tree.h:458-465 | while the focus lacks one black node, its sibling exists, so the fix-up never dereferences NULL |
| RedBlack.RemoveRedSibling | app/src/main/cpp/tree.h:460-464 | a red sibling is rotated away: the focus stays one black node short, below a red parent and with a black sibling |
| RedBlack.RemoveRecolor | app/src/main/cpp/tree.h:465-471 | a black sibling with black children turns red and the shortage moves to the parent |
| RedBlack.RemoveInner | app/src/main/cpp/tree.h:473-482 | a red inner nephew is rotated outwards and the shortage stays where it is |
| RedBlack.RemoveOuter | app/src/main/cpp/tree.h:483-489 | with a red outer nephew one rotation ends the shortage: the whole is a red-black tree again |
| RedBlack.RemoveDone | app/src/main/cpp/tree.h:526-527 | blackening a red focus, or the root, ends the shortage |
| RedBlack.SpliceColors | app/src/main/cpp/tree.h:579-595 | unlinking a node with at most one child leaves a red-black tree if it was red and the shortage invariant if it was black |
| RedBlack.SubstituteColors | app/src/main/cpp/tree.h:541-570 | the successor in the place and colour of the removed node leaves all black heights as they were |
| RedBlack.SubstituteOrder | app/src/main/cpp/tree.h:541-570 | and it takes exactly the place of the removed node in the sequence |
| RedBlack.HeightBound | app/src/main/cpp/tree.h:54-63 | no path is longer than twice the black height, plus one below a red root |
| RedBlack.LogHeight | app/src/main/cpp/tree.h:54-63 | a red-black tree of n nodes and height h has 2^h <= (n+1)^2, that is h <= 2 lg(n+1) |
| RBTree.MapTree.Rotate | app/src/main/cpp/tree.h:343-381 | the eight link assignments of a rotation rebuild exactly the rotated tree, with consistent parent links |
| RBTree.MapTree.InsertColor | app/src/main/cpp/tree.h:408-450 | the fix-up loop terminates, meets no NULL grandparent, and turns a tree with one red-red pair into a red-black tree with the same sequence |
| RBTree.MapTree.RemoveColor | app/src/main/cpp/tree.h:452-528 | the fix-up loop terminates, meets no NULL sibling, and turns a tree with one short path into a red-black tree with the same sequence |
| RBTree.MapTree.Insert | app/src/main/cpp/tree.h:598-626 | NULL exactly when the key was absent, the sequence then has the node at its sorted place; otherwise the existing node and nothing changes; every invariant is kept |
| RBTree.MapTree.Remove | app/src/main/cpp/tree.h:530-595 | returns the node given; the sequence is the old one without it; order, links, colours and black heights are kept |
| RBTree.MapTree.RemovedSorted | app/src/main/cpp/tree.h:530-595 | the sequence without one element is still strictly ascending |
| RBTree.MapTree.Find | app/src/main/cpp/tree.h:629-644 | the node with the key, or NULL exactly when there is none; the loop takes one turn for each node on the way, at most h, and 2^turns <= (n+1)^2 |
| RBTree.MapTree.NFind | app/src/main/cpp/tree.h:647-665 | the least node not below the key, or NULL when all are below; the loop takes one turn for each node on the way, at most h, and 2^turns <= (n+1)^2 |
| RBTree.MapTree.MinMax | app/src/main/cpp/tree.h:711-724 | the first node for a negative argument, else the last, NULL for an empty tree |
| RBTree.MapTree.Neighbour | app/src/main/cpp/tree.h:668-709 | the next or previous node of the sequence, or NULL at its end |
| RBTree.MapTree.ThereAndBack | app/src/main/cpp/tree.h:668-709 | RB_PREV undoes RB_NEXT and RB_NEXT undoes RB_PREV, on every node that has a neighbour; the others are the last and the first |
| RBTree.MapTree.Drain | app/src/main/cpp/xh_core.c:444-452 | the safe loop with removal visits every node once in ascending order and leaves the tree empty |
| RBTree.SearchDown | app/src/main/cpp/tree.h:604-614 | going down by a comparison keeps everything left of the focus below the key and everything right of it above |
| RBTree.InsertedOrder | app/src/main/cpp/tree.h:615-623 | a new leaf where the search ends keeps the sequence sorted and gains exactly one place |
| Pathname.CmpEqual | app/src/main/cpp/xh_core.c:78-81 | the comparison of the tree is 0 exactly for equal pathnames |
| Pathname.LessTrans | app/src/main/cpp/xh_core.c:78-81 | it is transitive |
| Pathname.CmpFirst | app/src/main/cpp/xh_core.c:78-81 | the first byte that differs decides, and a proper prefix comes first |
| SplayShape.LinkOrder | app/src/main/cpp/tree.h:101-111 | moving the root with its far subtree to an assembly tree loses and duplicates nothing |
| SplayShape.LinkBeyond | app/src/main/cpp/tree.h:101-111 | everything in an assembly tree stays beyond the key |
| SplayShape.TurnNarrowed | app/src/main/cpp/tree.h:220-240 | one turn of the splay loop, with or without the rotation, keeps the order and narrows the part that is left |
| SplayShape.PlugLinked | app/src/main/cpp/tree.h:113-118 | hanging the remaining subtree below the last node of an assembly tree gives a consistent tree of exactly their nodes |
| SplayShape.AssembledOrder | app/src/main/cpp/tree.h:113-118 | the assembled tree has the sequence of its parts |
| SplayShape.AssembledSplayed | app/src/main/cpp/tree.h:210-243 | when the loop stops, the root is the key's node or there is no element between the root and the key |
| SplayShape.SplayedMax | app/src/main/cpp/tree.h:200-203 | a tree whose elements are all below the key has, after a splay for it, its maximum at the root and no right child |
| SplayShape.SplayedAbsent | app/src/main/cpp/tree.h:165-187 | a splayed tree with another key at its root does not hold the key |
| SplayBalance.LgExact | app/src/main/cpp/tree.h:49-52 | the integer logarithm of the bounds below: 2^lg n <= n < 2^(lg n + 1) |
| SplayBalance.SplayAmortised | app/src/main/cpp/tree.h:210-243 | a splay of n nodes takes at most 6 lg n + 1 turns, up to twice the fall of the potential, which sums the logarithms of all subtree sizes |
| SplayBalance.PhiBound | app/src/main/cpp/tree.h:49-52 | the potential of n nodes is at most n lg n |
| SplayTree.SplayHead.Splay | app/src/main/cpp/tree.h:210-243 | the loop terminates on any tree that is not empty, keeps the sequence and ends splayed for the key; the links it makes and the turns it takes are those of the recursive definitions that the amortised bound speaks of |
| SplayTree.SplayHead.Find | app/src/main/cpp/tree.h:129-137 | the node with the key if there is one, else NULL, with the sequence kept; amortised 6 lg n + 1 turns |
| SplayTree.SplayHead.Insert | app/src/main/cpp/tree.h:165-187 | the sequence gains the node at its sorted place exactly when the key was absent; otherwise the existing node is returned; amortised 8 lg (n + 1) + 1 turns |
| SplayTree.SplayHead.Remove | app/src/main/cpp/tree.h:189-208 | the sequence loses exactly the node with the key, if there is one; the argument is returned then, and it is the node taken out exactly when it was in the tree; amortised 12 lg n + 2 turns |
| SplayTree.SplayHead.PerformAll | app/src/main/cpp/tree.h:49-52 | the Balance Theorem: m lookups, insertions and removals on a tree of k nodes, which have at most n nodes in it, take at most m (12 lg n + 2) + 2 k lg n turns in all, so m (12 lg n + 2) on an initially empty tree; the turns counted and the final tree are exactly those of the operations one after the other |
| SplayTree.SplayHead.UniqueKeys | app/src/main/cpp/tree.h:195-206 | two nodes of a search tree with the same key are one node |
| SplayTree.SplayHead.RemoveTwin | app/src/main/cpp/tree.h:205 | an example of a removal that returns a node which was never in the tree |
| SplayTree.SplayHead.SplayMinMax | app/src/main/cpp/tree.h:248-279 | the first or the last node becomes the root and the sequence is kept |
| SplayTree.SplayHead.Next | app/src/main/cpp/tree.h:140-150 | the in-order successor, or NULL behind the last node |
| TailQueues.TailQueue.InsertHead | app/src/main/cpp/queue.h:485-493 | the entry is put before all others; all link addresses stay consistent |
| TailQueues.TailQueue.InsertTail | app/src/main/cpp/queue.h:512-517 | the entry is put behind all others |
| TailQueues.TailQueue.InsertBefore | app/src/main/cpp/queue.h:495-500 | the entry is put right before a given one, without access to the head |
| TailQueues.TailQueue.InsertAfter | app/src/main/cpp/queue.h:502-510 | the entry is put right behind a given one |
| TailQueues.TailQueue.Remove | app/src/main/cpp/queue.h:528-535 | exactly the given entry is taken out |
| TailQueues.TailQueue.Concat | app/src/main/cpp/queue.h:519-526 | the second queue is appended to the first and left empty |
| TailQueues.TailQueue.Swap | app/src/main/cpp/queue.h:537-552 | two queues exchange their entries, empty ones included |
| TailQueues.TailQueue.Last | app/src/main/cpp/queue.h:442-443 | the last entry, read through a link address as if it were a head, or NULL |
| TailQueues.TailQueue.Prev | app/src/main/cpp/queue.h:439-440 | the entry before, or NULL for the first |
| TailQueues.TailQueue.Forward | app/src/main/cpp/queue.h:445-448 | the forward loop visits the sequence |
| TailQueues.TailQueue.Backward | app/src/main/cpp/queue.h:465-468 | the reverse loop visits exactly the reverse of it |
| TailQueues.TailQueue.Drain | app/src/main/cpp/xh_core.c:618-629 | the safe loop with removal visits every entry once and leaves the queue empty |
| Rules.Check | app/src/main/cpp/xh_core.c:356-382 | a pathname is selected exactly when its first matching rule is not covered by an ignore rule |
| Rules.HookImpl | app/src/main/cpp/xh_core.c:248-281 | the calls of `xh_elf_hook` are those for the uncovered matching rules, in registration order, and none when the image is refused |
| Rules.TargetsExact | app/src/main/cpp/xh_core.c:257-280 | a rule is hooked exactly when it is registered, matches, and no matching ignore rule names its symbol or all symbols |
| Rules.TargetsIgnoreOrder | app/src/main/cpp/xh_core.c:263-276 | the order of the ignore rules does not matter |
| Rules.CoveredByAll | app/src/main/cpp/xh_core.c:267-268 | a matching ignore rule for all symbols leaves nothing to hook, so the early return loses nothing |
| Rules.SelectedExact | app/src/main/cpp/xh_core.c:357-382 | a refresh selects a pathname exactly when it has something to hook and its first matching rule is not covered |
| Rules.SelectedTooNarrow | app/src/main/cpp/xh_core.c:377-378 | an example of registered rules and a pathname with something to hook that no refresh selects |
| Refresh.RuleSet.MapExact | app/src/main/cpp/xh_core.c:329-390 | a path is in the final map exactly when some line with it is readable, private, at offset 0, has an ELF header, does not start with a bracket, and the first rule that matches it is not ignored; its base address is that of the first such line |
| Refresh.CallsExact | app/src/main/cpp/xh_core.c:248-281 | the calls of `xh_elf_hook` are exactly those for a hooked pathname whose image can be read, at its address, and a registered rule that matches it and is not ignored |
| Refresh.RuleSet.BasesFirst | app/src/main/cpp/xh_core.c:390-438 | the final map holds exactly the accepted pathnames, each with the base address of its first accepted entry |
| Refresh.RuleSet.HooksExact | app/src/main/cpp/xh_core.c:390-438 | hooked are exactly the pathnames that are new or whose base address changed, at the new address |
| Refresh.RuleSet.HooksOnce | app/src/main/cpp/xh_core.c:390-438 | no pathname is hooked twice |
| Refresh.RuleSet.SecondRefreshIdle | app/src/main/cpp/xh_core.c:304-463 | a second refresh over the same memory map hooks nothing |
| Refresh.Core.Transfer | app/src/main/cpp/xh_core.c:392-406 | a node whose pathname is not in the new tree yet is taken out of the old one and not refused by the new one |
| Refresh.Core.Move | app/src/main/cpp/xh_core.c:389-412 | a known pathname seen again cannot be in the new tree, so the "repeated" branch is dead; its node moves there and is hooked exactly when its base address changed |
| Refresh.Core.Create | app/src/main/cpp/xh_core.c:413-439 | an unknown pathname gets a new node, which is hooked, or freed at once when the new tree has the pathname already |
| Refresh.Core.FreeAll | app/src/main/cpp/xh_core.c:443-452 | what is left in the old tree is freed, each node once, in order |
| Refresh.Core.Refresh | app/src/main/cpp/xh_core.c:304-463 | from any valid map: the final map and the calls made are those defined by the rules, and every node is in the new tree or was freed exactly once |
| Refresh.Core.RefreshTwice | app/src/main/cpp/xh_core.c:304-463 | two refreshes over the same memory map hook and call what the first of them does |
| AsyncRefresh.StepKeeps | app/src/main/cpp/xh_core.c:465-646 | every step of every thread keeps the invariant on mutexes, flags, life times, wake-ups and requests |
| AsyncRefresh.ReachableInv | app/src/main/cpp/xh_core.c:465-646 | so it holds in every reachable state, for any number of callers |
| AsyncRefresh.OneRefresh | app/src/main/cpp/xh_core.c:487-490 | at most one thread is in the refresh or frees what it works on, and that thread holds the refresh mutex |
| AsyncRefresh.NoLostWakeup | app/src/main/cpp/xh_core.c:473-479 | with the mutex free, a worker asleep and not signalled has no request and is not asked to stop; all requests were served |
| AsyncRefresh.HoldersRun | app/src/main/cpp/xh_core.c:473-490 | whoever holds a mutex can take its next step, so there is no lock cycle |
| AsyncRefresh.NoDeadlock | app/src/main/cpp/xh_core.c:554-646 | while a caller, clear or the worker has work, some thread can step, the join of clear included |
| AsyncRefresh.PendingProgress | app/src/main/cpp/xh_core.c:471-490 | while a request is unserved the worker can step, or waits for a caller that can |
| AsyncRefresh.ServedExact | app/src/main/cpp/xh_core.c:471-490 | requests become served exactly when the worker enters `xh_core_refresh_impl`; these are the ones taken, and at least one of them was not served before, so no worker refresh is for nothing |
| AsyncRefresh.RankStep | app/src/main/cpp/xh_core.c:465-494 | each worker step brings the refresh that answers a request nearer, and no other thread delays it |
| AsyncRefresh.PendingServed | app/src/main/cpp/xh_core.c:465-494 | in any run without a clear, ten steps of the worker are enough for a refresh to start that covers all requests made before |
| AsyncRefresh.RequestAnswered | app/src/main/cpp/xh_core.c:570-573 | the worker steps counted, every asynchronous request is followed by a worker refresh that starts after it |
| AsyncLiveness.BlockerStep | app/src/main/cpp/xh_core.c:496-581 | each step of the caller that blocks the worker brings the unlock nearer, and no other step puts it off |
| AsyncLiveness.WorkerActs | app/src/main/cpp/xh_core.c:471-490 | on an infinite run under a fair scheduler a worker with an unserved request takes a step |
| AsyncLiveness.RequestServed | app/src/main/cpp/xh_core.c:570-573 | on every infinite run under a fair scheduler, each asynchronous request that no clear follows is covered by a worker refresh that starts after it |
| AsyncLiveness.SurvivorServed | app/src/main/cpp/xh_core.c:465-573 | on every infinite run under a fair scheduler, a request that is unserved when the last clear has returned is covered by a later refresh exactly when there is a worker at some time after |
| AsyncLiveness.RestartServed | app/src/main/cpp/xh_core.c:528-554 | so it is covered once an asynchronous caller has created the next worker |
| AsyncPaths.SyncRefreshes | app/src/main/cpp/xh_core.c:556-581 | whatever the others do, a synchronous refresh that returns was in `xh_core_refresh_impl` with the refresh mutex, unless the core could not be initialised |
| AsyncPaths.AsyncRequests | app/src/main/cpp/xh_core.c:556-581 | an asynchronous refresh that returns made a request and set the flag for it, unless the core or the worker could not be initialised |
| AsyncPaths.KindKept | app/src/main/cpp/xh_core.c:556-581 | a synchronous caller never comes to the steps of a request, an asynchronous one never to those of a refresh |
| AsyncPaths.InitOnce | app/src/main/cpp/xh_core.c:496-554 | in a run without a clear the signal handler is registered at most once and the worker is created at most once, by however many callers |
| AsyncPaths.OutcomesCount | app/src/main/cpp/xh_core.c:496-590 | the core counts as initialised, and there is a worker, only after the system call for it succeeded; a worker is given up only when it has ended |
| AsyncPaths.MutexPasses | app/src/main/cpp/xh_core.c:465-646 | a mutex is taken only when nobody holds it, by the thread that steps, and given back only by its holder |
| AsyncPaths.StepMoves | app/src/main/cpp/xh_core.c:465-646 | every step of a thread takes it to another statement |
| AsyncPaths.WorkerRests | app/src/main/cpp/xh_core.c:471-490 | a worker without a request sleeps or ends after at most ten steps of its own: it does not spin |
| AsyncPaths.WorkerStops | app/src/main/cpp/xh_core.c:586-594 | once the running flag is reset the worker ends after at most five steps of its own, which nobody puts off |
| AsyncPaths.ClearFrees | app/src/main/cpp/xh_core.c:583-646 | a clear that returns has freed everything while it held both mutexes |
| AsyncPaths.ClearRestores | app/src/main/cpp/xh_core.c:583-646 | when clear returns all flags, mutexes and threads are as at the start; only the requests made and the flag for them stay |
| AsyncRefresh.ClearLeaves | app/src/main/cpp/xh_core.c:583-600 | without a worker a request is unserved exactly when the flag is set |
| AsyncRefresh.RequestOutlivesClear | app/src/main/cpp/xh_core.c:583-646 | an example of a run in which a request is made, clear returns before a worker took it, and the flag is still set |
| Sleb128.Decoder.Next | app/src/main/cpp/xh_elf.c:111-135 | the value is the signed number of the field modulo 2^W and exactly the field is consumed; XH_ERRNO_FORMAT exactly at an incomplete field |
| Sleb128.DigitOr | app/src/main/cpp/xh_elf.c:124 | or-ing a shifted digit adds it, bits beyond the word being cut off |
| Sleb128.SignFill | app/src/main/cpp/xh_elf.c:128-131 | or-ing the sign bits subtracts 2^shift modulo 2^W |
| Sleb128.SignBeyond | app/src/main/cpp/xh_elf.c:128 | when the final shift reaches the width no sign fill is needed |
| Sleb128.DecodeEncode | app/src/main/cpp/xh_elf.c:111-135 | decoding undoes the encoding of DWARF 5, section 7.6, whatever follows, for all numbers whose shifts fit |
| Sleb128.EncodeLength | app/src/main/cpp/xh_elf.c:111-126 | the encoding of a number of 7k bits has at most k bytes |
| Sleb128.WordsFit | app/src/main/cpp/xh_elf.c:111-126 | signed and unsigned words of W bits are among the numbers whose shifts fit |
| Sleb128.SignedWrap | app/src/main/cpp/xh_elf.c:133 | the decoded word read as two's complement is the number, for every signed number of W bits |
| Sleb128.StreamRoundTrip | app/src/main/cpp/xh_elf.c:97-135 | repeated decoding of a sequence of encoded numbers yields their words in order |
| Sleb128.StreamCut | app/src/main/cpp/xh_elf.c:118-119 | a stream cut short loses fields at its end and changes none before |
| PackedRelocs.Iterator.Init | app/src/main/cpp/xh_elf.c:160-172 | the count and the first offset are read, or the error is reported and nothing will be yielded |
| PackedRelocs.Iterator.ReadGroupFields | app/src/main/cpp/xh_elf.c:174-207 | the group fields that the flags ask for are read, the addend is kept, increased or reset, and a shared addend in a rel section is an error |
| PackedRelocs.Iterator.Next | app/src/main/cpp/xh_elf.c:209-256 | each call takes the head of the pending relocations, NULL exactly when there is none; the whole state after the call is stated, after a NULL too |
| PackedRelocs.FlagMasks | app/src/main/cpp/xh_elf.c:155-158 | the four flags are the masks 1, 2, 4 and 8, whatever other bits are set |
| PackedRelocs.StepNeeds | app/src/main/cpp/xh_elf.c:174-236 | a call yields a relocation exactly when the stream has the words that the flags ask for and no shared addend stands in a rel section; a NULL comes at the end of the stream or at such an addend |
| PackedRelocs.NullFinal | app/src/main/cpp/xh_elf.c:209-236 | after any NULL before the announced number is reached, the next call yields a relocation exactly when there are words enough for one; at the end of the stream no call yields one if and only if the next does not |
| PackedRelocs.NullNotFinal | app/src/main/cpp/xh_elf.c:190-199 | examples of streams, read to the end and not, on which a call yields NULL and the next call a relocation |
| PackedRelocs.Relocations | app/src/main/cpp/xh_elf.c:1035-1036 | the loop of the hook over a section sees exactly its listing |
| PackedRelocs.PackedRoundTrip | app/src/main/cpp/xh_elf.c:160-256 | the listing of a packed stream is the list its groups stand for, offsets, infos and addends running modulo 2^W, up to the announced count |
| PackedRelocs.ExpandTotal | app/src/main/cpp/xh_elf.c:209-256 | that list has every relocation of every group, unless a shared addend stands in a rel section |
| PackedRelocs.YieldMonotone | app/src/main/cpp/xh_elf.c:209-256 | more of the stream never changes what was yielded before |
| PackedRelocs.CutListing | app/src/main/cpp/xh_elf.c:209-256 | a section cut short at any byte yields a prefix of its relocations |
| SymbolHash.BitsOf | app/src/main/cpp/xh_elf.c:308-310 | the three operators on bits of numbers, bit by bit |
| SymbolHash.ElfHash | app/src/main/cpp/xh_elf.c:302-314 | the hash of the System V gABI, chapter 5, in 32-bit arithmetic, below 2^28 |
| SymbolHash.FoldAgrees | app/src/main/cpp/xh_elf.c:308-310 | clearing the top bits first and folding them in without a test equals folding, then clearing |
| SymbolHash.GabiStepExact | app/src/main/cpp/xh_elf.c:306-311 | one more character c makes of h the sum 16 h + c in 32 bits, with its four top bits taken out and put into bits 4 to 7 by exclusive or |
| SymbolHash.GabiSum | app/src/main/cpp/xh_elf.c:302-314 | the hash is the sum of name[i] * 16^(n-1-i) exactly when that sum has at most 28 bits |
| SymbolHash.ShortNames | app/src/main/cpp/xh_elf.c:302-314 | so it is for every name of at most five bytes |
| SymbolHash.GnuHash | app/src/main/cpp/xh_elf.c:317-326 | the name as a number in base 33 behind 5381, modulo 2^32 |
| SymbolHash.GnuSum | app/src/main/cpp/xh_elf.c:317-326 | that is 5381 * 33^n plus the sum of name[i] * 33^(n-1-i), modulo 2^32 |
| SymbolHash.HashLookup | app/src/main/cpp/xh_elf.c:356-375 | on any well-formed table the first symbol with the name on its chain; a non-empty name is found exactly when a linear scan finds it |
| SymbolHash.SysvExists | app/src/main/cpp/xh_elf.c:356-375 | every symbol table that starts with the null symbol has a well-formed System V hash table |
| SymbolHash.GnuExists | app/src/main/cpp/xh_elf.c:377-414 | every symbol table that is not empty has a well-formed GNU hash table |
| SymbolHash.MaskTest | app/src/main/cpp/xh_elf.c:382-388 | the mask comparison tests exactly the two bloom bits |
| SymbolHash.GnuLookupDef | app/src/main/cpp/xh_elf.c:377-414 | on any well-formed table a defined symbol is found exactly when a scan finds it: bloom filter, bucket test and chain end hide nothing |
| SymbolHash.GnuLookupUndef | app/src/main/cpp/xh_elf.c:416-431 | the first undefined symbol with the name, or the error when there is none |
| SymbolHash.GnuLookup | app/src/main/cpp/xh_elf.c:433-438 | found exactly when a linear scan of the whole symbol table finds it, a defined symbol first |
| SymbolHash.FindSymidxByName | app/src/main/cpp/xh_elf.c:440-446 | the lookup in whichever table the image has finds the symbol that the table determines, or reports that there is none |
| SymbolHash.FoundOnce | app/src/main/cpp/xh_elf.c:440-446 | a table determines at most one symbol for a name |
| ElfHook.Elf.GetAddrProtect | app/src/main/cpp/xh_util.c:105-108 | SEGVERR exactly when a byte of the word that is looked at lies in no eligible region, otherwise the bits that all regions of the word have |
| ElfHook.Elf.ReplaceFunction | app/src/main/cpp/xh_elf.c:448-497 | the slot, `*old_func` and the protections of all pages after one patch; nothing happens when it is patched already or cannot be made writable |
| ElfHook.Elf.FindAndReplaceFunc | app/src/main/cpp/xh_elf.c:928-981 | only a relocation of the symbol and of the right type is patched; a slot below the base is a format error |
| ElfHook.Elf.HookTable | app/src/main/cpp/xh_elf.c:1006-1043 | the loop over a table patches the wanted slots one after the other, the PLT loop only the first |
| ElfHook.Elf.Hook | app/src/main/cpp/xh_elf.c:983-1046 | the hook of a name, through the hash tables and the packed section: after success the word at bias plus offset of the first jump slot of the symbol in the PLT, and of each of its other relocations, plain or packed, holds the new function and no other word has changed; after an error the slots before it were patched; argument errors and unknown names change nothing |
| ElfHook.Elf.TargetsExact | app/src/main/cpp/xh_elf.c:958-972 | the slots of a hook said of the tables: the info of a relocation is put together from symbol and type, and its word lies at bias plus offset |
| ElfHook.Elf.LiesAtSum | app/src/main/cpp/xh_elf.c:972 | where that sum is a word, it is the address |
| ElfHook.Elf.HookAgain | app/src/main/cpp/xh_elf.c:983-1046 | hooking a name again after a success succeeds and changes neither memory nor `*old_func` nor a page |
| ElfHook.Elf.SlotsExact | app/src/main/cpp/xh_elf.c:958-965 | the slots of a table are those of its relocations with the symbol and a type the table is searched for |
| ElfHook.Elf.FirstSlot | app/src/main/cpp/xh_elf.c:1006-1017 | in the PLT the wanted slot is that of the first match |
| ElfHook.Elf.SuccessExact | app/src/main/cpp/xh_elf.c:971-980 | a hook succeeds exactly when no slot lies below the base and every slot not yet patched could be made writable before it |
| ElfHook.Elf.SlotsPatched | app/src/main/cpp/xh_elf.c:983-1046 | after success all wanted slots hold the new function, after an error those before the slot that causes it; no other word changes |
| ElfHook.Elf.OldFunc | app/src/main/cpp/xh_elf.c:455-478 | `*old_func` becomes the former word of the last slot, of those reached, that neither held the new function nor occurred earlier, and is untouched when there is none |
| ElfHook.Elf.PagesKept | app/src/main/cpp/xh_elf.c:459-490 | a hook leaves the protection of every page as it was, when no slot crosses a page boundary and restoring is granted |
| ElfHook.Elf.HookTwice | app/src/main/cpp/xh_elf.c:455-457 | a second hook succeeds and changes neither memory nor `*old_func` nor a page |
| MemProtect.GetMemProtect | app/src/main/cpp/xh_util.c:44-103 | for sorted disjoint regions: success exactly when every scanned byte lies in an eligible private region; the bits are exactly those of all the regions overlapped, up to the first byte missing after an error |
| MemProtect.ScannedExact | app/src/main/cpp/xh_util.c:46-47 | the whole range is scanned exactly when it is one byte, or not empty and its end does not wrap around |
| MemProtect.WrappedPasses | app/src/main/cpp/xh_util.c:46-47 | an example of a range over page-aligned regions that wraps around and passes although its second byte lies in no region |
| MemProtect.PagesExact | app/src/main/cpp/xh_util.c:40-42 | start and cover, in words, are the fewest whole pages that hold the word, one or two, up to the end of the address space |
| MemProtect.OpenedWritable | app/src/main/cpp/xh_elf.c:459-480 | at the time it is written the word may be read and written and is in no page that may be executed, also where it crosses a page boundary; the write has that as its precondition |
| MemProtect.ProtectionKept | app/src/main/cpp/xh_elf.c:459-490 | the protections after a patch are those before exactly when the word was readable and writable only, or all its pages have one protection and restoring it is granted; a word within a page has one protection |
| MemProtect.CrossingChanges | app/src/main/cpp/xh_elf.c:483-486 | an example of a word across two pages whose patch takes a permission from one of them |
| MemProtect.AccessStable | app/src/main/cpp/xh_elf.c:459-490 | patching a word does not change whether another can be made writable, even if its page keeps the write permission, each lying within a page |
| IoStats.IOInfo.Count | app/src/main/cpp/native-lib.cpp:218-251 | one more operation keeps every counter equal to its definition over all operations |
| IoStats.Monitor.Open | app/src/main/cpp/native-lib.cpp:253-265 | a descriptor that is not tracked yet becomes tracked with no operations; one that is stays as it is |
| IoStats.Monitor.Open64 | app/src/main/cpp/native-lib.cpp:267-278 | nothing becomes tracked |
| IoStats.Monitor.ReadWrite | app/src/main/cpp/native-lib.cpp:283-357 | after a successful call on a tracked descriptor the operation is counted, for no other descriptor anything changes |
| IoStats.Monitor.Close | app/src/main/cpp/native-lib.cpp:359-378 | the record holds the counters of its whole history, its total time and the file size, and is dropped |
| IoStats.MaximaExact | app/src/main/cpp/native-lib.cpp:229-249 | the two maxima are the largest single values, or 0 |
| IoStats.RunCostSnoc | app/src/main/cpp/native-lib.cpp:236-241 | the current continual time is the cost of the last run without a gap of 8000 microseconds |
| IoStats.StretchBound | app/src/main/cpp/native-lib.cpp:242-244 | with costs that are not negative, no stretch without a gap costs more than the maximum |
| IoStats.MaxRunCostAttained | app/src/main/cpp/native-lib.cpp:242-244 | and some stretch without a gap costs exactly that much |

## Left out

- Reading and parsing `/proc/self/maps`: entries and regions come already parsed, and a failing `fopen` is not modelled.
- Failing `malloc` and `strdup`: assumed to succeed.
- SIGSEGV handling with `sigsetjmp`: slots are required to be mapped, an access fault is not modelled.
- What `mprotect` does in the kernel: whether a request is granted depends on its arguments alone, and a refused request changes nothing. Instruction cache flushes are left out.
- ELF header checks and the parsing of the dynamic section: relocation tables, symbol table and hash tables come as sequences.
- Plain relocation sections: a table is the sequence of its entries; the byte-wise iterator over them would add an easy member.
- RB_AUGMENT is empty in this repository; the loops that only call it walk up without effect and are left out of insertion and removal.
- Sleb128.Decoder.Next: requires that no shift reaches the width of the word, which C leaves undefined.
- PackedRelocs.PackedRoundTrip: groups have at least one relocation; for an empty group the C code reads a relocation that the packer did not write.
- SplayTree.SplayHead.SplayMinMax: the argument is not 0, for which the loop in C does not end; SPLAY_MIN and SPLAY_MAX pass -1 and 1.
- MemProtect.PagesExact: the mask `PAGE_MASK` is written as rounding down to a multiple of 4096.
- ElfHook.Elf.SuccessExact: speaks of slots that do not cross a page boundary, as the linker aligns them; the patch of another slot can change the protections that later slots meet, see MemProtect.CrossingChanges.
- ElfHook.Elf.Hook: the slots, the metadata of the image and the word behind `old_func` do not overlap, so the packed relocations are listed before their slots are patched.
- AsyncLiveness.RequestServed: speaks of requests that no clear follows, since clear stops the worker (AsyncLiveness.SurvivorServed takes up what is left then), and of a scheduler that lets a mutex holder go on and lets a worker step that can do so again and again.
- AsyncRefresh.RequestAnswered: takes the number of worker steps as given; that they happen is AsyncLiveness.RequestServed.
- Callers that race with clear, or with registration: the code reads its flags without a lock there, so clients have to keep them apart.
- AsyncRefresh.ReachableInv: each read or write of a flag is one step; weaker memory orders of plain accesses are not modelled.
- The list, singly linked list and tail-less queue families of `queue.h`: not used by the core and easier than the tail queue.
- IoStats.IOInfo.Count: the `long` counters are unbounded integers; where a sum exceeds a `long`, of 32 bits in the 32-bit build, C leaves the result undefined.
- SplayTree.SplayHead.PerformAll: counts turns of the splay loop, each of which does a bounded amount of work; SPLAY_NEXT and SPLAY_MIN_MAX are not among its operations.
- Dump routines, logging, version strings, the JNI bridge, the wrappers in `xhook.c` and `xh_jni.c`, and all Kotlin, Java and build code.
