# cache-simulator in Dafny

A model of the cache store of the `cache-simulator` program and of the
integer configuration arithmetic that sizes it.

A cache maps set numbers to ordered lists of block records `{tag, index,
data}`. It also keeps a recency list of `(index, tag)` pairs, least recently
used first, and a flag saying whether it is an L2.

Reading a reference works in three steps:

- The reference is marked as last seen.
- It is a hit when its set holds a block with its tag.
- Otherwise it is a miss:
  - Its block is appended to the L1 set.
  - A full set first drops its oldest-inserted block.
  - Unless this cache is itself an L2, the dropped block is written back into an attached L2.
  - The block is then also put into L2, unless L2 already hits on it.

`run_simulation` does two things:

- It derives the block count, the set count and the address, offset, index and tag widths from the sizing parameters.
- It runs the references through an L1 backed by an L2, and then again through a fresh L1 on its own.

The model has these modules:

- `CacheSets` (`cache_sets.dfy`): block records and sets as values.
  - It defines one insertion into a set (`Push`, `InsertBlock`) and the tag search (`FirstWithTag`).
- `Recency` (`recency.dfy`): the recency list as a value.
  - `Touch` moves a pair to the most recent end.
  - `ReplaceTarget` and `Replaced` give the choice `replace_block` makes.
- `Hierarchy` (`hierarchy.dfy`): the reference semantics of `read_refs`.
  - `Step` is one reference and `Simulate` is a whole pass.
  - Both work on a `State` holding L1's sets, L1's recency list and L2's sets.
  - The lemmas about a pass are here.
- `Caches` (`cache.dfy`): the class `Cache`.
  - Its fields are `sets: map<SetKey, seq<Block>>`, `recent: seq<(Index, Tag)>` and `isL2`.
  - Its methods change them in place.
  - Each method is proved to change them exactly as the functions of the modules above say (`ReplaceBlock`: the array it is given, not a field).
- `HierarchyExamples` (`hierarchy_examples.dfy`): worked reference streams, evaluated step by step:
  - a two-way fully associative cache that shows the FIFO victim;
  - a direct-mapped cache with a conflict.
- `SimulatorConfig` (`simulator_config.dfy`): the configuration arithmetic and `get_addr_refs`.
  - It uses Python's floor division and an exact integer floor-log2.
  - Each exception is an error value.
- `Simulator` (`simulator.dfy`): builds the three caches and runs the two passes.
- `Wrappers` (`wrappers.dfy`): `Option` and `Result`.

Three behaviours of the code deserve attention; the model follows the code in each:

- The victim is not chosen by policy.
  - The program's own comments speak of MRU/LRU replacement (`cachesimulator/cache.py:54` and `:74`).
  - `set_block` always drops the first block of the set (`pop(0)`).
  - `replacement_policy` is only passed on.
  - `HierarchyExamples.FullyAssociativeFifo` shows a miss that LRU replacement would not have.
  - `replace_block`, the recency-driven replacer, is never called. It is modelled as a method of its own.
- Nothing rejects a negative tag width: the code computes it and carries on (`SimulatorConfig.NegativeTagWidth`).
- With one block per set, the L2 fill that follows the write-back in the same step drops the written-back block again (`Hierarchy.OneWayL2LosesVictim`). With two or more blocks per set it stays in L2 (`Hierarchy.StepKeepsVictimInL2`).

Other behaviours of the code that the model keeps:

- An L2 cache with no sets counts as no L2, because an empty `dict` is false in Python.
- A missing index addresses set 0 in `is_hit` and `set_block`, but `get_block` finds nothing for it.

## Model

| member | source | states |
|---|---|---|
| Caches.EmptySets | cachesimulator/cache.py:19-24 | a fresh cache with `count` sets has exactly the keys 0 .. count - 1, each an empty list |
| Caches.Cache.constructor | cachesimulator/cache.py:10-24 | a new cache has `num_sets` empty sets, an empty recency list and the given `is_l2` flag |
| Recency.RemoveFirst | cachesimulator/cache.py:32-33 | `list.remove` shortens the list by one exactly when the pair is present and adds no pair |
| Recency.IndexOf | cachesimulator/cache.py:32-33 | the position found holds the pair and no earlier position does |
| Recency.RemoveFirstDeletesOne | cachesimulator/cache.py:32-33 | removing deletes exactly the first occurrence: the list before it followed by the list after it |
| Recency.Touch | cachesimulator/cache.py:28-34 | after marking, the last pair is `(index, tag)`; the length grows by one iff the pair was absent |
| Recency.TouchMovesToEnd | cachesimulator/cache.py:28-34 | marking keeps every other pair in its relative order: an absent pair is appended; a present one is taken out of its place and put at the end |
| Recency.TouchKeepsNoDuplicates | cachesimulator/cache.py:28-34 | a recency list without repeats stays without repeats, and the marked pair occurs exactly once, at the end |
| Caches.Cache.MarkRefAsLastSeen | cachesimulator/cache.py:28-34 | the recency list becomes `Touch` of the old one and keeps its no-repeat invariant; the sets do not change |
| CacheSets.KeyOf | cachesimulator/cache.py:41-44 | an index addresses the set it names, and a missing index addresses set 0 |
| CacheSets.IndexlessIsSetZero | cachesimulator/cache.py:41-42 | a missing index and index 0 address the same set, so they hit and miss alike |
| CacheSets.FirstWithTag | cachesimulator/cache.py:48-52 | the result is the position of the first block with the tag, or the set size when no block has it |
| Caches.Cache.IsHit | cachesimulator/cache.py:38-52 | a hit iff the set addressed by the index, with a missing index meaning set 0, holds a block with the tag; an index with no set is a miss; the cache does not change |
| Caches.Cache.GetBlock | cachesimulator/cache.py:113-119 | returns a block iff the index is present, is a key and its set holds the tag; the block returned carries the tag and is the first such block; a missing index returns None; the cache does not change |
| Recency.Reverse | cachesimulator/cache.py:56-57 | the reversed list has the same length and holds position i at position length - 1 - i |
| Recency.ScanOrder | cachesimulator/cache.py:56-59 | for "mru" the recency list is scanned newest first, position i being the pair at length - 1 - i; for any other policy it is scanned as it stands |
| Recency.ReplaceTarget | cachesimulator/cache.py:61-65 | the position `replace_block` overwrites, if any, lies inside the block list |
| Recency.ReplaceTargetChoice | cachesimulator/cache.py:55-65 | nothing is overwritten iff no scanned pair has the index and a tag found in the set; otherwise the overwritten block is the first with the tag of the earliest such pair in scan order |
| Recency.Replaced | cachesimulator/cache.py:61-65 | the length does not change, at most the target position changes, and the target holds the new entry |
| Caches.Cache.ReplaceBlock | cachesimulator/cache.py:55-65 | after the nested scan, oldest first or newest first for "mru", the array holds `Replaced` of its old contents |
| CacheSets.Push | cachesimulator/cache.py:75-85 | a full set loses its first block and a set that is not full loses nothing; the entry is appended last; a set at or below capacity stays at or below it; no other block appears |
| CacheSets.InsertBlock | cachesimulator/cache.py:68-85 | only the addressed set changes, and it changes as `Push` says; the keys are kept; bounded sets stay bounded; blocks stay filed under existing sets |
| CacheSets.InsertKeepsTagsUnique | cachesimulator/cache.py:68-85 | inserting a tag the set does not hold keeps the tags of every set distinct |
| Caches.Cache.SetBlock | cachesimulator/cache.py:68-85 | the cache's sets become `InsertBlock` of the old ones, whatever the policy, and its recency list is unchanged; L2 changes only on an overflow of a non-L2 cache with an L2 holding sets; then it gets one insertion of the victim under the victim's own index, with no further cache, and its set ends with the victim |
| Hierarchy.WriteBack | cachesimulator/cache.py:75-84 | L2 changes only when L1 is not an L2 and the addressed L1 set is full; then the victim ends its own L2 set, no other L2 set changes, the keys are kept and bounded sets stay bounded |
| Hierarchy.Step | cachesimulator/cache.py:91-110 | one reference: L1's recency list is touched; a hit iff L1 caches the tag; a hit changes no set; a miss inserts the entry into L1, and with an L2 in use leaves L2 holding the tag in the reference's set (how L2 gets there: `Hierarchy.StepL2Fill`); without an L2, L2 is unchanged; the caches keep their keys and their fit |
| Hierarchy.StepL2Fill | cachesimulator/cache.py:97-110 | on an L1 miss with an L2 in use, an L2 that already hits on the reference after the write-back is left exactly as the write-back made it; otherwise the entry is inserted into it at the reference's index |
| Hierarchy.Simulate | cachesimulator/cache.py:88-110 | a pass over the references in input order yields one status per reference and keeps both caches' keys |
| Hierarchy.SimulateKeepsBounded | cachesimulator/cache.py:75-110 | no set of L1 or L2 grows beyond the blocks-per-set limit during a pass, given none started beyond it |
| Hierarchy.SimulateKeepsL1TagsUnique | cachesimulator/cache.py:93-103 | tags within every L1 set stay distinct during a pass, because L1 inserts only after a miss |
| Hierarchy.StepLeavesCached | cachesimulator/cache.py:93-103 | after any reference, L1 holds its tag in the set it addresses |
| Hierarchy.MissThenHit | cachesimulator/cache.py:91-103 | reading an uncached reference twice in a row gives a miss, then a hit |
| Hierarchy.StepIgnoresL2 | cachesimulator/cache.py:91-103 | the status, L1's sets and the recency list of a step do not depend on L2 |
| Hierarchy.L1IgnoresL2 | cachesimulator/cache.py:88-110 | two passes from the same L1 state classify every reference alike and leave L1 alike, whatever L2 holds and whether one is used |
| Hierarchy.StepL2Frame | cachesimulator/cache.py:76-84 | on an L1 miss with an L2 in use, no L2 set changes except the one the written-back victim is filed under and the one the reference addresses |
| Hierarchy.StepKeepsVictimInL2 | cachesimulator/cache.py:75-110 | with at least two blocks per set and bounded L2 sets, the block a full L1 set drops on a miss is in L2's set for its index after the step |
| Hierarchy.WriteBackDuplicatesTag | cachesimulator/cache.py:76-84 | the write-back appends the victim to an L2 set with room even when that set already holds its tag, so L2 sets can hold a tag twice |
| Hierarchy.OneWayL2LosesVictim | cachesimulator/cache.py:75-110 | with one block per set, a miss whose L1 set is full leaves only the new entry in L2's set, and the written-back victim is gone |
| Caches.Cache.ReadRef | cachesimulator/cache.py:91-110 | one iteration changes L1 and L2 exactly as `Step` says and returns its status; L2's recency list is untouched; whether an L2 is in use does not change |
| Caches.Cache.ReadRefs | cachesimulator/cache.py:88-110 | after the loop, L1 and L2 are in the state `Simulate` gives, and the statuses are its statuses in input order; L2's recency list is never modified |
| HierarchyExamples.StepSet | cachesimulator/cache.py:93-103 | without an L2, a step leaves its set alone on a hit and pushes the entry into it on a miss |
| HierarchyExamples.TwoWayFill | cachesimulator/cache.py:75-85 | two distinct tags fill an empty two-way set in arrival order |
| HierarchyExamples.TwoWayEvict | cachesimulator/cache.py:75-85 | a third tag drops the first-inserted block of a full two-way set |
| HierarchyExamples.FifoWarmUp | cachesimulator/cache.py:91-103 | a, b, a on an empty two-way fully associative cache: miss, miss, hit, with the set holding a then b |
| HierarchyExamples.FullyAssociativeFifo | cachesimulator/cache.py:75-103 | a, b, a, c, a on a two-way fully associative cache: miss, miss, hit, miss, miss; the victim is the oldest-inserted block, not the least recently used one |
| HierarchyExamples.DirectMappedConflict | cachesimulator/cache.py:75-103 | two tags sharing one direct-mapped set, read a, b, a, all miss, and the set ends holding a |
| SimulatorConfig.FloorDiv | cachesimulator/simulator.py:112-113 | Python's `//`: for a positive divisor, q * b <= a < (q + 1) * b, and the mirror image for a negative one |
| SimulatorConfig.MaxOf | cachesimulator/simulator.py:117 | `max` of a non-empty list is an element of it and bounds every element |
| SimulatorConfig.Log2 | cachesimulator/simulator.py:117-120 | the integer floor-log2 r of x satisfies 2^r <= x < 2^(r+1) |
| SimulatorConfig.Log2OfPow2 | cachesimulator/simulator.py:119-120 | the floor-log2 of 2^k is k |
| SimulatorConfig.DeriveConfig | cachesimulator/simulator.py:112-121 | the exception raised first: a zero block size or a zero set size is a division error; an empty address list is the `max` error; no positive address, a negative block size or fewer than one set is the `log2` domain error; a success has tag + index + offset bits equal to the address bits |
| SimulatorConfig.DeriveConfigSucceeds | cachesimulator/simulator.py:112-121 | the derivation succeeds iff the block size is positive, the set size is not zero, some address is positive, and the floor divisions leave at least one set |
| SimulatorConfig.DeriveConfigCounts | cachesimulator/simulator.py:112-113 | the block count is the floor quotient of the cache size by the block size, and the set count that of the block count by the set size, for a positive and for a negative set size alike; the set count is at least one |
| SimulatorConfig.DeriveConfigWidths | cachesimulator/simulator.py:115-120 | the address width is at least the configured one and at least 1, every address is below 2^width, and the offset and index widths are the floor-log2 of the block size and of the set count |
| SimulatorConfig.PowerOfTwoWidths | cachesimulator/simulator.py:119-120 | with a power-of-two block size and set count, 2^offset bits is the block size and 2^index bits is the set count |
| SimulatorConfig.NegativeTagWidth | cachesimulator/simulator.py:121 | eight one-word sets with one address bit and the address list [1] succeed with a tag width of -2 |
| SimulatorConfig.AddrRefs | cachesimulator/simulator.py:22-31 | one reference per word address, in input order, each built with the same widths |
| Simulator.RunPasses | cachesimulator/simulator.py:127-156 | L1, L2 and the L1-only cache are fresh, have the same sets, and only L2 is an L2; the first pass uses L2 and the second none; each ends as `Simulate` says; the two passes give the same statuses |

## Left out

- Printing and table rendering are not modelled: `display_addr_refs`, `display_cache`, the terminal-width lookup and the final report. They are output formatting only.
- Cycle totals are not modelled. `read_refs` returns nothing, so both totals that `run_simulation` prints are `None`; the model invents no cost.
- `Reference`, `get_cache_entry`, `BinaryAddress`, `WordAddress` and `ReferenceCacheStatus` are not part of this model. A reference is an index, a tag and the words of its block.
  - Set keys are set numbers instead of binary strings.
  - The single set of an indexless cache is key 0, the key `is_hit` and `set_block` use for a missing index.
  - `num_words_per_block` only sizes the entry, so it is not a parameter of `ReadRefs`.
  - The status is returned rather than written into the reference.
- `math.log2` on floats is replaced by an exact integer floor-log2. Float rounding on very large addresses is not modelled.
- The copy path of the constructor, `Cache(cache=...)`, is not modelled. It is an unused wrapper over `dict.update`.
- `tests/test_compliance.py` is not modelled. It runs style and complexity linters only.
- Hierarchy.Step, Hierarchy.Simulate, Caches.Cache.ReadRef, Caches.Cache.ReadRefs and Simulator.RunPasses: these require at least one block per set.
  - With zero, the code fails on `pop(0)` of an empty list.
  - With a negative limit, sets would grow without bound. That case is not modelled.
- Caches.Cache.ReadRef, Caches.Cache.ReadRefs and Simulator.RunPasses: these require every reference to address an existing set, and an L2 in use to hold every L1 set. Otherwise the code raises `KeyError`: from `is_hit` when a missing index finds no set 0, and from `set_block` when a given index names no set. That error path is not modelled.
- Caches.Cache.IsHit: it requires set 0 to exist when the index is missing. Otherwise `self["0"]` raises `KeyError`; that error path is not modelled.
- Caches.Cache.SetBlock: it requires the addressed set to exist, and, when the limit is 0, that set not to be empty (`CanInsert`). Otherwise `self[addr_index]` raises `KeyError`, or `pop(0)` on the empty set raises `IndexError`. On an overflow with an L2 holding sets, it also requires the victim's set to exist in L2; otherwise the write-back raises `KeyError`. These error paths are not modelled.
- Caches.Cache.SetBlock, Caches.Cache.ReadRef and Caches.Cache.ReadRefs: these require that L2 is a different object from the cache itself. Passing a cache as its own L2 is not modelled.
- Caches.Cache.ReplaceBlock: the block list is an array passed in, not a list held in the cache's map, so an overwrite does not show up in `sets`. Aliasing between the caller's list and the cache is not modelled.
- Simulator.RunPasses: it takes the set count and the references directly, instead of chaining them from `SimulatorConfig.DeriveConfig`, because the slicing of addresses into index and tag lives in `Reference`, which is not part of this model.
- HierarchyExamples.FullyAssociativeFifo, HierarchyExamples.FifoWarmUp and HierarchyExamples.DirectMappedConflict: these are stated step by step over `Hierarchy.Step`, without L2, and not as one `Simulate` over a literal list.
