# Verified models of CORTX utilities

This project models the stateful core of cortx-utils in Dafny 4.11 and proves properties of it. Check
everything with `dafny verify dfyconfig.toml`.

| file | what it models |
|---|---|
| `Text.dfy` | digits and joined sequences, for `Keys`, `Access` and `Version` |
| `Tree.dfy` | nested dicts, lists and scalars; reading, writing and removing along a path; normal form and its leaves |
| `Keys.dfy` | the key syntax `k6>k4[2]>k5`: splitting, printing, and that one undoes the other |
| `Access.dfy` | `_get`, `_set`, `_delete` of the payload by key string, with every exception |
| `Flatten.dfy` | `_get_keys` and `_search` |
| `NumKeys.dfy` | `_add_num_keys` |
| `Payload.dfy` | the class `KvPayload` and the laws between its operations |
| `Transfer.dfy` | the key-by-key loops of `copy` and `merge`, and what they make of whole trees |
| `CopyNodes.dfy` | `copy` and `merge` of keys that lead to dicts or lists |
| `ConfStore.dfy` | `ConfStore.copy`, `merge`, `compare` over loaded payloads |
| `LeaseLock.dfy` | `ConfStore.lock`, `unlock`, `test_lock` as a timed protocol of any number of clients |
| `OrderedIndex.dfy`, `Kvs.dfy` | the ordered key index, and the pattern scan, prefix test and key iterator over it |
| `TraceStack.dfy` | the per-thread stack of traced calls and the records it writes |
| `Faults.dfy` | fault points over whole runs, and the table that holds them |
| `LogFilter.dfy` | selection of log files within a size budget |
| `Version.dfy` | comparison of version strings |

How to read the payload part. A tree is addressed by a path of steps, each a dict name or a list index.
Two paths are *apart* when neither is above the other, and they *part alike* when, where they first
differ, both ask for a name or both for an index. A tree is *normal* when its root is a dict, every other
dict and list is non-empty, leaves are strings or integers, no list sits directly in a list, and names are
not blank and free of `>` and `[`. Python dicts are maps here: no result depends on the order in which a
dict is iterated, and each method that iterates one may pick any order. Python's `bool` counts as `Int`.
The recursive methods take the nested data as a value and return the changed value; for `_set` and
`_delete` this includes what is left behind when they raise half-way.

How to read the lock part. A run is a sequence of steps of any clients and of the one clock they read. Reading
a register, writing the owner, and reading the owner back are one step each; whether computing and writing the end
time are one step or two, and likewise the read and the deletions of an unlock, is part of the configuration, as are
the owner names. A client's *span* runs from its first read in the test to its write of the owner.

## Findings

- The lock excludes exactly under five conditions: spans shorter than the 0.01 s pause, an owner name of its own for
  every client, one common duration, an end time that is computed and written without a delay in between, and an
  unlock that is not interrupted between its read and its deletions. The code guarantees none of them; two processes
  that fall back on the machine id share a name. `SafeExactlyWhen` proves both directions.
- `set("a[0]", v)` wipes out a dict stored under `a`, with all keys below it (`SetReplacesDict`).
- Copying and merging overlay the two leaf maps exactly when the trees are compatible (`CopyOverlays`,
  `MergeOverlays`); otherwise a leaf is lost or a scalar on the way raises.
- A copy or merge with the caller's own list of source leaves gives the expected leaves exactly when these fit
  beside the destination's leaves and no earlier slot of a list is left over as a padded `''` (`CarryExactlyWhen`).
  For a copy the order of the list then does not matter (`CopyInAnyOrder`). For a merge it does: a slot padded for
  a higher one counts as present, so its own key must come first (`MergeOutOfOrder` is an input where it does not).
- A copy with the caller's own list of keys may ask for dicts and lists too. It then replaces exactly what is under
  the keys under three conditions, and raises exactly when a number stands where a key wants a dict
  (`CopyNodesExactlyWhen`). A merge keeps the destination's leaves but not what it has under a key that leads to a dict
  or a list (`MergeReplacesNode`).
- A copy of a requested key that reads None in the source stores a None, so that the destination reads nothing there
  afterwards (`CopyOfNothing`). A `get` or `copy` of an absent key can also raise: `ReadExactly` says exactly when.
- A pattern scan whose callback answers false fetches the same key again, and never ends if the answer for some
  key never becomes true (`PatternEndsIffAccepted`).
- The comment at c-utils/src/cortx/m0kvs.c:714-717 is not true of keys shorter than the prefix: for the prefix
  `ab` and the single key `b` the assertion fails (`ShortKeyFails`). `PrefixExistsExact` says exactly when; whenever
  the assertion holds the answer is right.
- `fp_table_realloc_states` drops what `realloc` returns (c-utils/src/fault/fault-points.c:193-198). Unless `realloc`
  extends the block in place, the table leaves its list at the first lookup that has to grow it (`FindAll`,
  `FitsIffNeverGrows`), at the latest with the 257th distinct id (`TooManyIds`).
- c-utils/src/include/fault.h:36 says that a ONCE point disables itself after its hit. It stays enabled, and a flag
  keeps it from firing again (`OnceStaysEnabled`, `OnceFiresOnce`).
- Lines 40-43 there say that a REPEAT point repeats its cycle of N silent and M firing checks. It does so for 2N + M
  checks, and no longer (`RepeatCyclesExactlyFor`): it has one window until the 32-bit count wraps
  (`RepeatDoesNotCycle`, `RepeatWraps`). The model follows the code.
- `version_check` compares digits, not numbers: 2.0.10 counts as older than 2.0.9 (`TenBeforeNine`). It agrees
  with numeric order field by field when the widths of all fields are equal, and versions of two different lists of
  widths cannot be mixed safely (`WidthsAgreeIffEqual`).

## Model

| member | source | states |
|---|---|---|
| Tree.PutThenAt | py-utils/src/utils/kv_store/kv_payload.py:175-214 | a value written at a path is found there, for every tree and path |
| Tree.PutFrame | py-utils/src/utils/kv_store/kv_payload.py:189-214 | for every path beside the written one: a node survives exactly when the paths part alike, and a missing node appears exactly when it is a padded list slot, as a blank |
| Tree.RemoveThenAt | py-utils/src/utils/kv_store/kv_payload.py:340-363 | a removed node is gone, or blank exactly when it is a list slot with slots after it |
| Tree.RemoveFrame | py-utils/src/utils/kv_store/kv_payload.py:343-363 | removal changes nothing at any path beside the removed node; no list index shifts |
| Tree.LeavesDetermine | py-utils/src/utils/kv_store/kv_payload.py:135-154 | flattening is injective: normal values with equal leaf maps are equal |
| Tree.PutNormal | py-utils/src/utils/kv_store/kv_payload.py:189-214 | writing a scalar, or a normal value that makes no list inside a list, along a printable path keeps the normal form |
| Keys.KeyRoundTrip | py-utils/src/utils/kv_store/kv_payload.py:139-149 | the key printed for a path splits, by name, index and delimiter, back into exactly that path |
| Keys.KeysDistinct | py-utils/src/utils/kv_store/kv_payload.py:139-149 | different printable paths have different keys |
| Keys.CompExactly | py-utils/src/utils/kv_store/kv_payload.py:180-187 | any segment of a key, printable or not: the name is the text before its first number in brackets, the index is that number, and what is left over reaches up to a second one; without such a number it is all name |
| Keys.NatRoundTrip | py-utils/src/utils/kv_store/kv_payload.py:180-187 | a printed list index is read back as the same number |
| Payload.KeyGrows | py-utils/src/utils/kv_store/kv_payload.py:139-149 | a key is printed from left to right, a further name after `>`, an index in brackets |
| Access.GetExactly | py-utils/src/utils/kv_store/kv_payload.py:259-320 | for every key and every exception: it is raised if and only if usable components lead to a dict in which the next one raises it; otherwise the answer is the node at the key's path, or None if there is none |
| Access.SetRec | py-utils/src/utils/kv_store/kv_payload.py:175-214 | the recursion over the key string, with container creation and the padding loop, computes the specified dict and exception, also when it raises half-way |
| Access.SetIsPut | py-utils/src/utils/kv_store/kv_payload.py:189-214 | for every key with usable indexed names: either the value ends up at the key's path, or a scalar on the way raises and the dict is unchanged |
| Access.SetRejects | py-utils/src/utils/kv_store/kv_payload.py:176-214 | a key with an index after a blank name sets nothing and raises EINVAL, leaving behind the containers that the components before it made, unless a scalar on the way raises first |
| Access.SetWhatIsRead | py-utils/src/utils/conf_store/conf_store.py:216-217 | setting any key string to the value it reads changes nothing |
| Access.DeleteRec | py-utils/src/utils/kv_store/kv_payload.py:332-367 | the recursion over the key string computes the specified tree and the flag or exception |
| Access.DeleteIsRemove | py-utils/src/utils/kv_store/kv_payload.py:340-367 | for every key: a deletion removes exactly the node at the key's path and answers True, or changes nothing; which of the two depends on presence, force and emptiness |
| Access.DeleteAbsent | py-utils/src/utils/kv_store/kv_payload.py:332-367 | where nothing is at the path, for every key and exception: it is raised if and only if the key leads to a value that is not a dict, or indexes a value that is not a list; otherwise the answer is False |
| Flatten.GetKeys | py-utils/src/utils/kv_store/kv_payload.py:115-154 | the listing holds no duplicates and exactly the keys of the reported leaves; for a normal tree each leaf once, list slots in increasing order, for any dict iteration order |
| Flatten.FlatIsLeaf | py-utils/src/utils/kv_store/kv_payload.py:137-154 | in a normal tree the recursion of the listing reports exactly the leaves |
| Flatten.FlatExactly | py-utils/src/utils/kv_store/kv_payload.py:137-154 | in any tree the recursion of the listing reports exactly the strings and integers whose path has no two indices in a row |
| Flatten.Search | py-utils/src/utils/kv_store/kv_payload.py:61-93 | below a node of a normal tree the search finds exactly the leaves with the searched last name and value, each once; without a value exactly the leaves under a node printed with that name |
| NumKeys.AddNumRec | py-utils/src/utils/kv_store/kv_payload.py:98-113 | the nested loops and the final update compute the specified tree |
| NumKeys.CountedEverywhere | py-utils/src/utils/kv_store/kv_payload.py:102-109 | afterwards every dict at any depth has, for every list it still holds, a `num_` entry with that list's length |
| NumKeys.OthersUnchanged | py-utils/src/utils/kv_store/kv_payload.py:98-113 | at a path that no written entry is on there is a node afterwards if and only if there was one; a scalar, float or None is the same, a list has the same length, and a dict has its old names and the written ones |
| NumKeys.AddNumTwice | py-utils/src/utils/kv_store/kv_payload.py:98-113 | a second call changes nothing, even where an entry overwrote a list |
| Payload.KvPayload.Set | py-utils/src/utils/kv_store/kv_payload.py:216-218 | the payload's dict afterwards, and the exception |
| Payload.KvPayload.Delete | py-utils/src/utils/kv_store/kv_payload.py:369-379 | the payload's dict afterwards, and the answer or exception |
| Payload.KvPayload.Keys | py-utils/src/utils/kv_store/kv_payload.py:115-133 | exactly the payload's keys, each once; of a normal payload each leaf once, in list order |
| Payload.KvPayload.SearchKeys | py-utils/src/utils/kv_store/kv_payload.py:52-59 | in a normal payload, strictly below the parent and each once: with a value exactly the leaf keys with that last name and value, without one exactly the leaf keys under a node, from the parent on, whose key ends in that name; an exception exactly when reading the parent raises |
| Payload.KvPayload.AddNumKeys | py-utils/src/utils/kv_store/kv_payload.py:95-96 | the payload's dict afterwards |
| Payload.ReadExactly | py-utils/src/utils/kv_store/kv_payload.py:259-320 | a printed key raises KeyError if and only if the way lacks a name that has an index and is not the last, TypeError if and only if it ends in an index of a number or None, and otherwise reads the node at its path, or None if there is none |
| Payload.SetThenGet | py-utils/src/utils/kv_store/kv_payload.py:175-218 | unless a scalar is met on the way, set raises nothing and get returns the value set |
| Payload.SetFrame | py-utils/src/utils/kv_store/kv_payload.py:189-214 | any other key neither above nor below: keeps its value if and only if the keys part at two names or two indices, gains one if and only if it is a padded slot, which reads blank |
| Payload.SetReplacesDict | py-utils/src/utils/kv_store/kv_payload.py:191-193 | setting a list slot under a name makes every key of a dict stored under that name read nothing |
| Payload.DeleteLaw | py-utils/src/utils/kv_store/kv_payload.py:332-367 | delete answers True if and only if the key is there and may be deleted; then it reads nothing, or blank for an inner list slot; otherwise nothing changed, and a key that is there raises EINVAL |
| Payload.DeleteFrame | py-utils/src/utils/kv_store/kv_payload.py:343-367 | no delete disturbs the reading of a key neither above nor below |
| Payload.SearchHitsRead | py-utils/src/utils/kv_store/kv_payload.py:52-93 | every search result is in the key listing and, if a value was searched for, reads it |
| Transfer.CarryExactlyWhen | py-utils/src/utils/conf_store/conf_store.py:216-274 | for any leaves of the source in any order, copied or merged: the result has exactly the expected leaves if and only if the leaves fit beside the destination's and every slot before a requested one is provided, by a destination leaf or a request, for a merge by one made in time; if they fit, nothing is raised and the tree stays normal |
| Transfer.CarryOneExactly | py-utils/src/utils/conf_store/conf_store.py:216-274 | one printable key, with any payloads: kept as a leaf of the destination, or raising what reading it raises, or blocked by a scalar, or written |
| Transfer.CopyOfNothing | py-utils/src/utils/conf_store/conf_store.py:216-217 | copying a key that reads None stores a None, so that the destination reads nothing there |
| Transfer.CopyInAnyOrder | py-utils/src/utils/conf_store/conf_store.py:216-217 | if copying some keys gives the expected leaves, copying the same keys in any other order gives the same tree |
| Transfer.CarryLaw | py-utils/src/utils/conf_store/conf_store.py:216-217 | carrying any initial part of the listed keys into a compatible tree raises nothing, keeps the normal form, and gives exactly the expected leaf map |
| Transfer.ListedIsTidy | py-utils/src/utils/kv_store/kv_payload.py:115-154 | every initial part of the listing requests each slot before any later slot of the same list |
| Transfer.CopyRebuilds | py-utils/src/utils/conf_store/conf_store.py:211-217 | copying every key of a normal tree into an empty payload rebuilds exactly that tree |
| Transfer.CopyOverlays | py-utils/src/utils/conf_store/conf_store.py:211-217 | copying all keys between normal trees makes the leaf map the destination's overridden by the source's if and only if no leaf of one lies above a path of the other and no node is a dict in one and a list in the other; then nothing is raised |
| Transfer.MergeOverlays | py-utils/src/utils/conf_store/conf_store.py:262-274 | merging all keys makes the leaf map the source's overridden by the destination's, under exactly the same condition; then nothing is raised and the tree stays normal |
| Transfer.MergeTwice | py-utils/src/utils/conf_store/conf_store.py:271-274 | merging again, with source keys in any order, changes nothing |
| Transfer.HighSlotPads | py-utils/src/utils/kv_store/kv_payload.py:194-196 | setting slot 1 alone leaves slot 0 as a key that nobody set, reading blank |
| Transfer.CarrySelfSame | py-utils/src/utils/conf_store/conf_store.py:216-217 | carrying keys that read a value onto their own payload changes nothing and raises nothing |
| Transfer.CopyWithin | py-utils/src/utils/conf_store/conf_store.py:216-217 | copied within one payload, printable keys with a node change nothing, and a key after them does what it does alone |
| Transfer.MergeOutOfOrder | py-utils/src/utils/conf_store/conf_store.py:271-274 | with the higher slot listed first, the lower slot's value is not merged |
| CopyNodes.CopyNodesExactlyWhen | py-utils/src/utils/conf_store/conf_store.py:211-217 | for any requested nodes in any order: exactly what is under their keys is replaced by what the source has there if and only if every leaf of the destination is replaced or beside all requests with the same kind of step, no padded slot is left over, and no number is in the way; an exception is raised if and only if one is |
| CopyNodes.CopyRuns | py-utils/src/utils/conf_store/conf_store.py:216-217 | with no number in the way the loop ends well; otherwise it raises and leaves such a number where it was |
| CopyNodes.MergeReplacesNode | py-utils/src/utils/conf_store/conf_store.py:271-274 | merging a key of a dict or list puts the source's there, whatever the destination had under it, except for a leaf at the key itself |
| ConfStore.Store.CarryKeys | py-utils/src/utils/conf_store/conf_store.py:216-217 | the loop between two payloads performs the specified carrying, stopping at the first exception |
| ConfStore.Store.Copy | py-utils/src/utils/conf_store/conf_store.py:194-217 | which indexes fail, which keys are carried, what the destination becomes and what is raised, also when source and destination are one payload |
| ConfStore.Store.Merge | py-utils/src/utils/conf_store/conf_store.py:244-274 | which indexes fail; a requested key that cannot be read, or reads no true value, is refused with its exception and no change; otherwise which keys are carried, what the destination becomes and what is raised, also when both are one payload |
| ConfStore.GrantedIffSomething | py-utils/src/utils/conf_store/conf_store.py:264-268 | requested printable keys are accepted if and only if each leads to a node other than None, 0, 0.0, '', {} and []; otherwise the refusal is that of the first that does not: KeyError or TypeError if reading it raises, ENOENT for its key if not |
| ConfStore.MergeRequested | py-utils/src/utils/conf_store/conf_store.py:262-274 | merging requested leaves between normal trees: refused by the first that is '' or 0; with none, the leaf maps are joined if and only if the leaves fit and no padded slot is left over |
| ConfStore.Store.Compare | py-utils/src/utils/conf_store/conf_store.py:219-242 | the three results are exactly the keys only in the second, only in the first, and in both with different values; no key twice; an exception if and only if reading a common key raises one, which cannot be on normal trees |
| ConfStore.NoDifferenceIffEqual | py-utils/src/utils/conf_store/conf_store.py:237-242 | for normal trees all three lists are empty if and only if the trees are equal |
| ConfStore.CompareByLeaves | py-utils/src/utils/conf_store/conf_store.py:237-242 | a printable key is added, removed or updated if and only if its leaf is in the second tree only, in the first only, or in both with different values |
| LeaseLock.InvStep | py-utils/src/utils/conf_store/conf_store.py:304-315 | every step of every client keeps the invariant: an unexpired lease owns the register, and nobody else has passed or can pass the test |
| LeaseLock.InvHolds | py-utils/src/utils/conf_store/conf_store.py:304-315 | the invariant holds after every run |
| LeaseLock.MutualExclusion | py-utils/src/utils/conf_store/conf_store.py:304-315 | over every run of any number of clients at most one holds an unexpired lease, under the five conditions |
| LeaseLock.SlowTestUnsafe | py-utils/src/utils/conf_store/conf_store.py:305-313 | if spans may reach the pause, some run has two holders |
| LeaseLock.UnequalDurationsUnsafe | py-utils/src/utils/conf_store/conf_store.py:306-308 | with two different durations some run has two holders |
| LeaseLock.SharedNameUnsafe | py-utils/src/utils/conf_store/conf_store.py:300-313 | if one client's name is blank or another client's too, some run has two holders |
| LeaseLock.SplitEndUnsafe | py-utils/src/utils/conf_store/conf_store.py:307-308 | if writing the end time can lag behind computing it, some run has two holders, even with equal durations and names of their own |
| LeaseLock.SplitUnlockUnsafe | py-utils/src/utils/conf_store/conf_store.py:345-350 | if unlocking can be interrupted, some run has two holders |
| LeaseLock.SafeExactlyWhen | py-utils/src/utils/conf_store/conf_store.py:304-385 | for two or more clients and positive durations: all runs exclude if and only if spans stay below the pause, names are not blank and not shared, durations are equal, and writing the end time and unlocking are one step each |
| LeaseLock.LockAnswers | py-utils/src/utils/conf_store/conf_store.py:304-385 | from any state of any clients, an undisturbed lock succeeds if and only if the owner is blank or the caller or the end time is absent or over; then owner, end time and lease are the caller's, and else nothing changes |
| LeaseLock.LockIsRefused | py-utils/src/utils/conf_store/conf_store.py:370-385 | after any run, while the lease of another owner lasts, a lock changes nothing |
| LeaseLock.LostRace | py-utils/src/utils/conf_store/conf_store.py:311-314 | a client that reads back another name after the pause holds nothing new and leaves the registers alone |
| LeaseLock.UnlockFrees | py-utils/src/utils/conf_store/conf_store.py:344-350 | the owner's unlock, in one step or three, empties both registers and gives up the lease, and changes no other client |
| LeaseLock.UnlockByOther | py-utils/src/utils/conf_store/conf_store.py:344-350 | an unlock by anyone who is not the owner, as after an unlock, changes nothing |
| LeaseLock.UnlockHandsOver | py-utils/src/utils/conf_store/conf_store.py:304-350 | after any run that ends with the lock held: right after the owner's unlock another client's lock succeeds, however long the old lease would have lasted |
| LeaseLock.ForceFrees | py-utils/src/utils/conf_store/conf_store.py:345-350 | a forced unlock empties both registers and ends every lease, and no client's place in its call changes |
| OrderedIndex.PrefixContiguous | c-utils/src/cortx/m0kvs.c:713-719 | keys between a prefix and a key that carries it carry it too |
| OrderedIndex.LessExactly | c-utils/src/cortx/m0kvs.c:713-719 | a key is less than another if and only if it is a proper initial part of it or the first byte that differs is smaller |
| OrderedIndex.PositionAfter | c-utils/src/cortx/m0kvs.c:904-907 | the strictly next key of a stored key is its neighbour |
| Kvs.StoredPosition | c-utils/src/cortx/m0kvs.c:573-579 | looking up terminated strings among terminated strings is looking up the strings |
| Kvs.Pattern | c-utils/src/cortx/m0kvs.c:531-656 | whenever the passes of the job come to an end, the loop ends as they do; then it has called back on exactly the first maximal run of matching keys at or after the start, in order, on each until it was accepted, and answers -ENOENT if and only if there is none |
| Kvs.PatternEndsIffAccepted | c-utils/src/cortx/m0kvs.c:632-636 | the scan ends if and only if the callback, which may remember its calls, in the end accepts every key of the run |
| Kvs.HeardOnce | c-utils/src/cortx/m0kvs.c:632-648 | keys that are accepted at once are called back on once each |
| Kvs.PrefixPatternIsAll | c-utils/src/cortx/m0kvs.c:626-648 | for a prefix pattern and a start not after it, the run is every key with that prefix |
| Kvs.PrefixExistsExact | c-utils/src/cortx/m0kvs.c:681-726 | the least key not below the prefix decides: true if and only if some key carries it; the assertion fails if and only if none does and the next key is too short |
| Kvs.ShortKeyFails | c-utils/src/cortx/m0kvs.c:714-717 | for the prefix `ab` and the single key `b` the assertion fails |
| Kvs.PrefixExistsAnswers | c-utils/src/cortx/m0kvs.c:681-726 | with no key shorter than the prefix the function answers exactly whether some key carries it |
| Kvs.KeyIter.Find | c-utils/src/cortx/m0kvs.c:803-890 | positions on the least key at or after the prefix, or fails and wipes the iterator |
| Kvs.KeyIter.Advance | c-utils/src/cortx/m0kvs.c:892-936 | moves to the strictly next key, or fails and stays |
| Kvs.KeyIter.VisitAll | c-utils/src/cortx/m0kvs.c:803-936 | find, then next until it fails, visits exactly the part of the index from the prefix on |
| Kvs.VisitedIsSuffix | c-utils/src/cortx/m0kvs.c:803-936 | that part is strictly increasing and holds exactly the keys at or after the prefix |
| Kvs.CarriersComeFirst | c-utils/src/cortx/m0kvs.c:803-936 | its keys with the prefix are all such keys, and form a gapless initial segment |
| TraceStack.CallStack.constructor | c-utils/src/include/perf/perf-counters.h:301-319 | a fresh stack holds just the origin's context |
| TraceStack.CallStack.Push | c-utils/src/include/perf/perf-counters.h:273-284 | the stack grows by the context, stamped with the stack's module |
| TraceStack.CallStack.Pop | c-utils/src/include/perf/perf-counters.h:286-299 | returns and removes the last context, or reports an invalid id on an empty stack |
| TraceStack.CallStack.Enter | c-utils/src/include/perf/perf-counters.h:433-478 | the stack grown by the drawn id, a begin record and a map record with the origin's and the caller's id |
| TraceStack.CallStack.Leave | c-utils/src/include/perf/perf-counters.h:463-480 | the stack shrinks by the context that the end record names |
| TraceStack.CallStack.Run | c-utils/src/include/perf/perf-counters.h:433-480 | every nested run that fits the stack leaves it as it was and writes exactly the trace of its call tree, whatever ids its calls draw |
| TraceStack.TraceReplays | c-utils/src/include/perf/perf-counters.h:433-443 | an independent reader, knowing only the open calls, accepts that trace for any ids: each map record names the innermost call, the one around it and the origin |
| TraceStack.TraceDetermines | c-utils/src/include/perf/perf-counters.h:433-480 | the trace determines the tree of calls at every depth and the id each of them drew |
| Faults.StateAfter | c-utils/src/fault/fault.c:96-120 | after any run: the 32-bit count, the switch, and whether a ONCE point has triggered, in terms of the run alone |
| Faults.FiresAsPromised | c-utils/src/fault/fault-points.c:66-95 | over every run of checks, enables and disables, a check fires if and only if the point's kind says so of the run |
| Faults.FiresBelowWrap | c-utils/src/fault/fault-points.c:55-95 | in fewer than 2^32 checks: a check of the enabled point fires exactly from hit_start on, there the first time only, from hit_start to hit_end, or outside of these, as the kind is ALWAYS, ONCE, REPEAT or SKIP |
| Faults.OnceFiresOnce | c-utils/src/fault/fault-points.c:66-77 | a ONCE point never fires twice |
| Faults.OnceStaysEnabled | c-utils/src/fault/fault-points.c:66-77 | a ONCE point is still enabled right after it fired |
| Faults.RepeatCyclesExactlyFor | c-utils/src/fault/fault-points.c:84-88 | in all runs of at most `l` checks a REPEAT point fires as the documented cycle does, if and only if `l` is below hit_start + hit_end |
| Faults.RepeatDoesNotCycle | c-utils/src/fault/fault-points.c:84-88 | below 2^32 checks a REPEAT point fires at exactly the enabled checks numbered hit_start to hit_end |
| Faults.RepeatWraps | c-utils/src/fault/fault-points.c:55-58 | it fires at check hit_start, and again at check 2^32 + hit_start |
| Faults.FaultTable.Grow | c-utils/src/fault/fault-points.c:188-199 | size doubles and the states stay; the list grows only where growth reaches it |
| Faults.FaultTable.Find | c-utils/src/fault/fault-points.c:246-282 | the slot of the id, new ids appended, all else unchanged; outside the list if and only if a new id meets a full list that growth does not reach |
| Faults.FaultTable.FindAll | c-utils/src/fault/fault-points.c:246-282 | a run of lookups in a fresh table: it leaves the list if and only if some lookup does not fit and growth does not reach the list; otherwise each requested id has, at the end, the slot it was given |
| Faults.FaultTable.Register | c-utils/src/fault/fault.c:57-89 | the slot's point starts at count 0, keeping the switch; other slots unchanged |
| Faults.FaultTable.Handle | c-utils/src/fault/fault.c:96-149 | checking, enabling and disabling by id changes exactly that id's slot by one step of its point |
| Faults.SlotFires | c-utils/src/fault/fault.c:57-149 | a slot that is switched, registered and then put through any run fires if and only if its kind promises so, starting from the last switch before the registration |
| Faults.SlotsAreStable | c-utils/src/fault/fault-points.c:246-282 | ids stay pairwise distinct and keep their slots over every series of lookups |
| Faults.FitsIffNeverGrows | c-utils/src/fault/fault-points.c:265-276 | without growth all lookups stay inside the list if and only if no more distinct ids are used than fit initially |
| Faults.TooManyIds | c-utils/src/fault/fault-points.c:265-276 | more than 256 distinct ids do not fit a fresh table |
| LogFilter.LimitSize | py-utils/src/utils/support_framework/log_filters.py:122-150 | the loop writes the specified files in order; a negative budget fails if and only if some file matches |
| LogFilter.KeptSize | py-utils/src/utils/support_framework/log_filters.py:140-150 | exactly min(total size, limit) bytes are written |
| LogFilter.KeptShape | py-utils/src/utils/support_framework/log_filters.py:104-119 | the first files whole, then of the next, if there is one, exactly its last bytes that the budget still allows |
| LogFilter.BundleLaw | py-utils/src/utils/support_framework/log_filters.py:122-150 | for a directory sorted newest first: the files considered are those whose name starts with the pattern, or with all of it but a trailing `*`; min(total, limit) bytes are written, whole files no older than any other match, then the last bytes of one, no name twice |
| Version.GetDigits | py-utils/src/utils/schema/release.py:271-277 | the digits of the text in order |
| Version.VersionCheck | py-utils/src/utils/schema/release.py:75-100 | the loop over padded digits is lexicographic comparison of the digit lists |
| Version.CompareZero | py-utils/src/utils/schema/release.py:87-100 | 0 if and only if the digit lists are equal |
| Version.OlderExactly | py-utils/src/utils/schema/release.py:87-100 | -1 if and only if the first digits are a proper initial part of the second or smaller where they first differ; 1 if and only if it is the other way round |
| Version.InitialFieldsAreOlder | py-utils/src/utils/schema/release.py:75-100 | a version whose fields are a proper initial part of the fields of another is older |
| Version.CompareSwaps | py-utils/src/utils/schema/release.py:93-100 | swapping the arguments negates the answer |
| Version.CompareTransitive | py-utils/src/utils/schema/release.py:93-100 | at most is transitive, and equal only if both steps are |
| Version.DigitsOfVersion | py-utils/src/utils/schema/release.py:271-277 | the text between fields does not matter |
| Version.AgreesOnEqualWidths | py-utils/src/utils/schema/release.py:75-100 | with equal widths the answer is the numeric order of the fields |
| Version.WidthsAgreeIffEqual | py-utils/src/utils/schema/release.py:93-100 | versions of two lists of field widths are all put in numeric order, field by field, if and only if the lists are equal |
| Version.TenBeforeNine | py-utils/src/utils/schema/release.py:75-100 | 2.0.10 counts as older than 2.0.9, although its last field is the larger number |

## Left out

- Updating nested dicts and lists in place: the payload's field is reassigned to the updated value. Sharing of a
  container between two payloads, which `copy` with a key that is not a leaf creates, is not captured. Within that copy
  it makes no difference: what is written into a shared container is what it holds already.
- Iteration order of dicts: results are stated for every order; the order of a rebuilt dict is not.
- `KvPayload._keys`, the shallow key and read functions, `starts_with`, `key_index=False`, delimiters other than `>`,
  payloads whose root is a list.
- Transfer.CarryExactlyWhen: requested keys that lead to no scalar of the source; `CopyNodes.dfy` has those that lead
  to dicts and lists.
- CopyNodes.CopyNodesExactlyWhen: requested keys that lead to nothing; `Transfer.CopyOfNothing` and
  `Transfer.CarryOneExactly` have these one key at a time.
- Python's equality between `1` and `1.0`, and `bool` as a type of its own.
- LeaseLock.MutualExclusion: clock values are real numbers, not their decimal texts, and all clients read one clock;
  durations are whole seconds as the code demands.
- LeaseLock.SafeExactlyWhen: a forced unlock is one step and counts as unlocking every holder.
- Kvs.Pattern: the pattern language is a predicate on keys, and the callback's answer depends on nothing but its calls
  in this scan; key length limits, allocation failures and failing index operations are not modelled.
- Values fetched along with keys, and the return code array before the index operation is launched.
- TraceStack: the counter that all threads draw ids from: the ids that a thread draws are given, and none of them is
  the invalid id, to which the 64-bit counter returns only when it wraps; threads without a stack, submodule tags,
  attributes, and padding bytes in the verified pop.
- Faults.FaultTable.Grow: growth in place is modelled by a larger list of the same states, and whether growth reaches
  the list is the same for every growth of a table.
- Faults: DELAY, RANDOM and USER_FUNC points, locking, and the end of the table's life.
- LogFilter: parsing of the size text, the directory listing and the sort by modification time; `limit_time`.
- Version: digits outside ASCII.
- Consul, file formats, message buses, setup and REST code: foreign services and plumbing.
