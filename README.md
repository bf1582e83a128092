# Skip list (ordered multimap) — a Dafny model

This project models the skip list of `SkipList.h`: a `SkipList<K, V>` whose
nodes each carry a key, a value, a level and a `forward_` vector of one link per
level, hanging off a sentinel `head_` node with `max_level_` links. Keys may
repeat, so the list is an ordered multimap. The model covers:

- the construction of the list;
- `get_previous_ptr`, the top-down pass that finds each level's predecessor of a key;
- `search_ptr` and `search`;
- `insert`, which splices a new node in below each predecessor;
- `erase`, which unlinks the first node of a key level by level, from level 0 up;
- `get_random_level`, the geometric level draw;
- `size`, `get_max_level`, `create_node` and `Node::unlink`.

Layout:

- `nodes.dfy` (module `Nodes`): handles and the node record. Every node lives in
  an arena and is addressed by its index. Handle 0 is `head_` and the handle -1
  is `nullptr`. `Nulls(n)` is a fresh `forward_` vector of `n` null links.
- `entry_list.dfy` (module `EntryList`): what the list stands for. This is the
  sequence of (key, value) entries met along level 0. It keeps equal keys side
  by side and is key-sorted. Insertion puts the new entry at the lower bound of
  its key, so it goes before the existing entries of that key. Erasure takes out
  the entry at the lower bound when its key matches. The lemmas state sortedness,
  per-key counts, the round trip and the lookups of a worked example.
- `levels.dfy` (module `Levels`): the link structure as values.
  - `LevelLinked(nodes, forward, E, i)` says that following link `i` from the
    head or from any live node of level > i reaches the next node of level > i
    in the level-0 order `E`, or null.
  - `WellFormed` adds the layout and the live order:
    - every node has `level == |forward|`, and the head has `max_level_` links;
    - the live order `E` is duplicate-free and holds only arena nodes other than the head;
    - each live node's level lies in [1, max_level_];
    - the keys along `E` never decrease.
  - The lemmas show that splicing a node in (as `insert` does) or unsplicing it
    (as `erase` does) keeps each level linked.
  - `Chain(nodes, E, i)` is the level-i chain. The chain lemmas show three
    things: following slot i from the head visits exactly that chain, each
    chain is sorted, and chain i+1 is a subsequence of chain i.
- `skiplist.dfy` (module `SkipLists`): class `SkipList`. Its fields are the
  arena (`nodes`, `forward`), `count` (element_count_) and a ghost `elems` (the
  live nodes in level-0 order). Each method follows its C++ member function, loop
  for loop, and is proved against `Contents()`, the entry sequence of its `elems`.
  The head's key and value are arbitrary. The constructor default-initializes
  them with `K k; V v;`, which for `int` leaves them indeterminate, and no walk
  ever reads the head's key.

## Model

| member | source | states |
|---|---|---|
| Nodes.Nulls | SkipList.h:58 | a node built with level n has exactly n forward slots, all null |
| EntryList.LowerBound | SkipList.h:164-176 | the lower bound is at most the length; every entry before it has a key below k; the entry at it (if any) has key >= k |
| EntryList.LowerBoundSorted | SkipList.h:164-176 | on sorted contents every entry from the lower bound on has key >= k, and k is present iff the entry at the lower bound has key k |
| EntryList.InsertEntryShape | SkipList.h:204-209 | insertion adds exactly one entry (k, v) at the lower bound of k and keeps every old entry, in order, before and after it |
| EntryList.InsertEntrySorted | SkipList.h:204-210 | insertion keeps the contents key-sorted: keys before the new entry are below k, keys after it are >= k |
| EntryList.InsertEntryCounts | SkipList.h:200-212 | a duplicate key is kept as a separate entry: the count of k rises by one, every other key's count is unchanged |
| EntryList.InsertThenFound | SkipList.h:200-212 | right after inserting (k, v) the key k is present |
| EntryList.EraseEntryFindsFirst | SkipList.h:226-232 | erasure takes no entry iff k is absent (and then changes nothing); otherwise it takes the first entry with key k |
| EntryList.SortedRemove | SkipList.h:233-238 | removing one position shifts the later entries down by one and keeps the sequence key-sorted |
| EntryList.EraseEntryShape | SkipList.h:232-240 | when an entry is taken out, every other entry keeps its relative order and the contents stay sorted |
| EntryList.EraseEntryCounts | SkipList.h:232-240 | an erasure that takes an entry lowers the count of k by one; no other key's count changes |
| EntryList.EraseThenMissing | SkipList.h:221-241 | after an erasure k is absent exactly when it had at most one entry before |
| EntryList.InsertThenErase | SkipList.h:200-241 | erasing k right after inserting (k, v) restores the old contents and returns (k, v); the lower bound of k is the same before and after the insertion, so erase takes the entry at the very position insert put (k, v) |
| EntryList.LowerBoundIs | SkipList.h:164-176 | the lower bound is the only index with its defining property |
| EntryList.InsertAt | SkipList.h:204-209 | when p has the lower-bound property for k, insertion puts the new entry at p |
| EntryList.ScenarioInsert3 | SkipList.h:200-212 | the worked example: inserting 3 into the empty list gives [(3, 3)] |
| EntryList.ScenarioInsert1 | SkipList.h:200-212 | the worked example: inserting 1 goes before 3 |
| EntryList.ScenarioInsert4 | SkipList.h:200-212 | the worked example: inserting 4 goes after 3 |
| EntryList.ScenarioInsert1Again | SkipList.h:200-212 | the worked example: the duplicate 1 is kept as a separate entry, and it goes in at position 0 (the lower bound of 1), before the existing 1 |
| EntryList.ScenarioInsert5 | SkipList.h:200-212 | the worked example: after inserting 5 the contents are [(1,1), (1,1), (3,3), (4,4), (5,5)] |
| EntryList.ScenarioErases | SkipList.h:221-241 | the worked example: each erasure of 1 removes one of the two entries of key 1 |
| EntryList.Scenario | SkipList.h:179-181 | the worked example's lookups: 5 entries with 4 found; then 4 entries with 1 still found; then 3 entries with 1 gone |
| Levels.PredBounds | SkipList.h:168-173 | at a level-i predecessor of k, the node is the head or has key < k, and its slot i is null or a live node with key >= k |
| Levels.WalkHit | SkipList.h:156-157 | if the next node on some level has key k, then k is among the contents |
| Levels.EraseMiss | SkipList.h:227-229 | if the level-0 successor of the predecessor is null or has another key, erasing k changes nothing and takes nothing |
| Levels.EraseHit | SkipList.h:227-232 | otherwise that successor is the node at the lower bound of k, and erasing k takes out exactly its entry |
| Levels.SlotIsErased | SkipList.h:233-236 | during erase, the level-i predecessor points at the erased node iff that node's level exceeds i (so the loop's break comes after the node's top level) |
| Levels.SpliceLevel | SkipList.h:206-209 | the two link writes of insert on level i link level i correctly for the new level-0 order |
| Levels.InsertKeepsLevel | SkipList.h:206 | levels at or above the new node's level need no write: they stay linked |
| Levels.UnspliceLevel | SkipList.h:237 | the link write of erase on level i links level i correctly for the order without the erased node |
| Levels.RemoveKeepsLevel | SkipList.h:233-236 | levels at or above the erased node's level are left alone and stay linked |
| Levels.EntriesInserted | SkipList.h:204-209 | putting the new node at the lower bound of its key in the level-0 order changes the contents exactly as InsertEntry does |
| Levels.EntriesRemoved | SkipList.h:232-238 | removing a node from the level-0 order removes its entry from the contents at the same position |
| Levels.InsertWellFormed | SkipList.h:204-210 | once every level is linked for the new order, the whole structure is well formed again, with the inserted contents |
| Levels.RemoveWellFormed | SkipList.h:232-239 | once every level is linked without the erased node, the structure is well formed again, with the reduced contents |
| Levels.ChainMember | SkipList.h:58 | a node is on the level-i chain iff it is live and its level exceeds i: a node of level L appears exactly at levels 0..L-1 |
| Levels.ChainFromHead | SkipList.h:152-155 | following forward slot i from the head visits exactly the level-i chain, in order, and ends at null |
| Levels.ChainSorted | SkipList.h:169-171 | every level chain is key-sorted (non-decreasing) |
| Levels.ChainRemoved | SkipList.h:232-238 | on every level, the chain without the erased node is the old chain with that node dropped: the other nodes keep their relative order |
| Levels.ChainInserted | SkipList.h:206-209 | on every level, the new chain is the old chain with the new node put in at the split position when it is on that level, and nothing else moves |
| Levels.ChainNested | SkipList.h:206-209 | the level-(i+1) chain is the level-(i+1) chain of the level-i chain, so it is a subsequence of it |
| Levels.UnlinkDetached | SkipList.h:76-80 | clearing every slot of a node that is neither the head nor live keeps the structure well formed |
| SkipLists.LeadingHeads | SkipList.h:247-249 | the number of true flips before the first false: all flips before it are true and the one at it (if any) is false |
| SkipLists.SkipList.constructor | SkipList.h:136-145 | the list is well formed and empty; the head has max_level_ slots, all null; the count is 0 |
| SkipLists.SkipList.GetMaxLevel | SkipList.h:125-127 | the result is positive and is the head's number of slots |
| SkipLists.SkipList.Size | SkipList.h:216-218 | the element counter is the number of entries |
| SkipLists.SkipList.CreateNode | SkipList.h:131-133 | appends a node with the given key, value and level and that many null slots; contents and links are unchanged |
| SkipLists.SkipList.Unlink | SkipList.h:76-80 | every slot of the node becomes null and nothing else changes; the invariant is kept for a node that is not linked |
| SkipLists.SkipList.RandomLevel | SkipList.h:245-251 | the level is one plus the leading true flips, capped at max_level_, and lies in [1, max_level_] |
| SkipLists.SkipList.WalkLevel | SkipList.h:169-171 | moving right on level i from a node before k's lower bound stops at the level-i predecessor of k |
| SkipLists.SkipList.GetPreviousPtr | SkipList.h:164-176 | max_level_ entries; entry i is the level-i predecessor: the head or a live node with key < k, whose slot i is null or a live node with key >= k |
| SkipLists.SkipList.SearchPtr | SkipList.h:149-161 | null iff k is absent; otherwise the predecessor (head or key < k) of a live node with key k on some level, not that node itself |
| SkipLists.SkipList.SearchMisses | SkipList.h:160 | if the level-0 walk ends without a match, k is absent |
| SkipLists.SkipList.Search | SkipList.h:179-181 | true iff some entry has key k |
| SkipLists.SkipList.Insert | SkipList.h:200-212 | the new node of the drawn level is placed at the lower bound of k; the contents become InsertEntry(old contents, k, v); the structure stays well formed; the count rises by one; the slots of nodes that were not live are unchanged |
| SkipLists.SkipList.LinkIn | SkipList.h:206-209 | the splice loop leaves a well-formed structure for the order with the new node at the lower bound of k; it changes no slot except those of the new node, the head and live nodes |
| SkipLists.SkipList.Relink | SkipList.h:232-238 | the relinking loop turns the structure into a well-formed one for the order without the erased node. It changes only slots of the head and of the other live nodes: the erased node's slots and those of nodes that are not live stay as they were |
| SkipLists.SkipList.Erase | SkipList.h:221-241 | no match: returns null and nothing changes. Otherwise: the returned node is the one at the lower bound of k, the first with key k, and it is no longer live; the contents lose exactly its entry; the order of the others is kept; the count drops by one. The returned node's slots and those of nodes that were not live are unchanged |

## Left out

- Locking: the `shared_mutex`, its shared and unique locks, and the atomic counter. Every operation is modelled as one sequential step; concurrency is not modelled.
- `print_list` and `print_level_size`: console output only.
- `erase_all` and `erase_range`: they are declared in the header but never defined, so there is no behaviour to model.
- main.cpp is not part of this model. It is a threaded benchmark harness.
- `rand()`: `RandomLevel` and `Insert` take the coin flips as a parameter `coins`. They require a false flip somewhere in it, since `while (rand() % 2)` needs a tail to end.
- `shared_ptr` ownership and destruction: nodes live in an arena and an erased node stays there, so the returned handle remains valid.
- The `forward_` vectors are one sequence-valued field of the arena, updated by reassignment rather than per-node arrays. Two nodes never share a vector, so no aliasing is lost.
- The unused fields `index`, `nt` and `current_level_`.
- `Node::get_key`, `get_value` and `get_level`: these are the field selectors of the `Node` record.
- SkipLists.SkipList.constructor: requires a positive level. With 0, erase reads `update[0]` of an empty vector; a negative level gives a negative vector size.
- Keys are mathematical integers and `element_count_` is an unbounded counter. 32-bit overflow of the count and the ordering of non-`int` key types are not modelled.
- Duplicates follow the code: along every level, keys never decrease, and a new duplicate is placed before the existing entries of its key. This differs from a stricter reading that level chains must be strictly increasing.
- SkipLists.SkipList.WalkLevel, SkipLists.SkipList.LinkIn and SkipLists.SkipList.Relink are the loops of `get_previous_ptr`, `insert` and `erase`, put in methods of their own. Each keeps the same loop guard and body.
