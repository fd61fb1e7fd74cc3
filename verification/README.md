# Consistent hashing ring, modelled in Dafny

This project models the array-based consistent-hashing ring of
`consistent_hashing.py`, together with the "traditional" modulo-N placement of
`traditional_hashing.py` that it is compared with.

The ring (`ConsistentRing.ConsistentHashing`) keeps two parallel lists:
`keys`, the occupied slots of a hash space of 50 slots in ascending order,
and `nodes`, where `nodes[i]` is the storage node sitting on slot `keys[i]`.
Three operations work on them:

- `AddNode` places a node on the slot its host hashes to. It fails with
  `HashSpaceFull` when all 50 slots are taken and with `CollisionDetected`
  when that slot is already occupied. Otherwise it inserts the slot and the
  node at the same right-bisect index of both lists.
- `RemoveNode` finds the slot of the node's host by left bisect and pops that
  index from both lists. It fails with `HashSpaceEmpty` on an empty ring and
  with `NodeNotPresent` when the slot is free. It compares slots only, never
  node identities.
- `Assign` gives the node on the first slot strictly above the item's slot,
  wrapping round to the first node (`bisect_right(keys, h) % len(keys)`). On an
  empty ring that modulo fails, modelled as `ZeroDivisionError`.

Each method is proved against a pure specification on a `Table` value
(`AddNodeSpec`, `RemoveNodeSpec`, `AssignSpec`). The lemmas about those
specifications state what the design promises:
- the ring invariant is kept: slots strictly increasing, lists in lockstep,
  every node on the slot its host hashes to, at most 50 entries;
- failures change nothing;
- adding then removing a node, and removing then re-adding it, are inverses;
- `Assign` is the strict clockwise successor rule;
- adding or removing one node only moves the items that the change is about.

The three `bisect` calls are verified binary searches (module `Bisect`),
proved equal to linear reference definitions.

The traditional scheme (`ModuloHashing.TraditionalHashing`) maps a key's
UTF-8 bytes to node index `sum(bytes) % len(storage_nodes)`. `upload_file`
and `fetch_file` pick the node at that index.

Files: `results.dfy` (errors and `Result`), `storage_node.dfy` (the node
value), `lists.dfy` (list insert and pop), `bisect.dfy`, `sorted_edits.dfy`
(how the edits interact with sortedness and successor search),
`consistent_hashing.dfy`, `traditional_hashing.dfy`.

Three behaviours of the code that are easy to misread, modelled as written:
- `assign` uses a strict successor (`bisect_right`). An item whose slot equals
  a node's slot goes to the next node, not to that node
  (`AssignIsSuccessor`). A "first slot at or after" reading would be wrong.
- `add_node` finds its index with a right bisect and detects a collision by
  looking at `keys[index-1]`, not with a left bisect. `BisectRightFinds`
  proves this is the same as "the slot is already in `keys`".
- `assign` on an empty ring fails through the modulo by zero, not through
  an explicit emptiness check.

## Model

| member | source | states |
|---|---|---|
| `ConsistentRing.HashFn` | consistent_hashing.py:15-26 | the slot of a key always lies in `[0, total_slots)`, for any digest value and any `total_slots > 0`; it is a function of the key alone |
| `ConsistentRing.ConsistentHashing.constructor` | consistent_hashing.py:10-13 | a new ring is empty, has 50 slots, hashes every key with `HashFn` and satisfies the ring invariant |
| `ConsistentRing.ConsistentHashing.AddNode` | consistent_hashing.py:29-54 | keeps the ring invariant; result and new lists are exactly those of `AddNodeSpec`: full ring or occupied slot fail and change nothing, otherwise slot and node are inserted at the right-bisect index and the slot is returned |
| `ConsistentRing.ConsistentHashing.RemoveNode` | consistent_hashing.py:56-80 | keeps the ring invariant; result and new lists are exactly those of `RemoveNodeSpec`: empty ring or free slot fail and change nothing, otherwise the entry at the left-bisect index is popped from both lists and the slot is returned |
| `ConsistentRing.ConsistentHashing.Assign` | consistent_hashing.py:82-95 | changes nothing; answers exactly `AssignSpec`; fails precisely on an empty ring, otherwise returns a node that is in the ring |
| `ConsistentRing.AddNodeSpec` | consistent_hashing.py:35-54 | a failed addition leaves the table as it was; a successful one returns the node's slot and grows both lists by one |
| `ConsistentRing.RemoveNodeSpec` | consistent_hashing.py:62-80 | a failed removal leaves the table as it was; a successful one returns the node's slot and shrinks both lists by one |
| `ConsistentRing.AssignSpec` | consistent_hashing.py:87-95 | defined exactly when the ring is non-empty (otherwise `ZeroDivisionError`), and then the answer is one of the ring's nodes |
| `ConsistentRing.ValidTable` | consistent_hashing.py:11-12 | the ring invariant (slots strictly ascending, `nodes[i]` on slot `keys[i]`, which its host hashes to) implies that both lists have the same length and that every slot lies in `[0, total_slots)` |
| `ConsistentRing.RingSizeBounded` | consistent_hashing.py:35-36 | a valid ring never holds more than `total_slots` entries |
| `ConsistentRing.FullRingTakesEverySlot` | consistent_hashing.py:35-47 | when `len(keys) == total_slots` every slot is occupied, so the capacity check only refuses nodes that would also collide |
| `ConsistentRing.NodesDistinct` | consistent_hashing.py:44-52 | no node appears twice in a valid ring |
| `ConsistentRing.InsertKeepsOwnSlots` | consistent_hashing.py:51-52 | inserting a node with its own slot at the same index of both lists keeps every node on its own slot |
| `ConsistentRing.AddNodeKeepsValid` | consistent_hashing.py:35-54 | `add_node` keeps keys strictly increasing and in lockstep with nodes; it fails with `HashSpaceFull` iff the ring is full, with `CollisionDetected` iff it is not full and the slot is taken, succeeds iff neither, leaves the table unchanged on failure, and on success returns the slot, which is then present, with one more entry |
| `ConsistentRing.RemoveNodeKeepsValid` | consistent_hashing.py:62-80 | `remove_node` keeps the invariant; it fails with `HashSpaceEmpty` iff the ring is empty, with `NodeNotPresent` iff it is non-empty and the slot is free, succeeds iff the slot is occupied, leaves the table unchanged on failure, and on success returns the slot, which is then absent, with one entry fewer |
| `ConsistentRing.RemoveMatchesSlotOnly` | consistent_hashing.py:66-73 | two nodes whose hosts hash to the same slot have the same effect on removal: the node itself is never compared |
| `ConsistentRing.AddThenRemoveRestores` | consistent_hashing.py:42-80 | after a successful `add_node`, removing the same node succeeds, returns its slot and restores both lists exactly |
| `ConsistentRing.RemoveThenAddRestores` | consistent_hashing.py:29-80 | removing the entry on a slot and then adding its occupant back succeeds, returns the slot and restores both lists exactly |
| `ConsistentRing.AssignIsSuccessor` | consistent_hashing.py:87-95 | on a non-empty ring the answer is the node on the least slot strictly above the item's slot; an item on an occupied slot goes to the next node (the first after the last); an item at or above the largest slot wraps to `nodes[0]` |
| `ConsistentRing.RemoveKeepsOtherAssignments` | consistent_hashing.py:69-95 | removing the entry at index `i` succeeds, and every item not assigned to `nodes[i]` before keeps its node afterwards |
| `ConsistentRing.RemoveMovesToNextNode` | consistent_hashing.py:56-95 | when the ring holds at least two nodes, every item assigned to the removed `nodes[i]` is afterwards assigned to the next node clockwise, `nodes[(i + 1) % len]` |
| `ConsistentRing.AddMovesFromSuccessor` | consistent_hashing.py:29-95 | on a non-empty ring, every item assigned to the newly added node was before assigned to the node on the first slot clockwise of the new node's slot |
| `ConsistentRing.AddMovesOnlyToNewNode` | consistent_hashing.py:42-95 | after a successful addition every item is assigned either to the new node or to the node it had before |
| `Bisect.FirstAbove` | consistent_hashing.py:42 | reference for `bisect`/`bisect_right`: an index at most `len`, everything before it `<= x`, the element at it `> x` |
| `Bisect.FirstAtLeast` | consistent_hashing.py:69 | reference for `bisect_left`: an index at most `len`, everything before it `< x`, the element at it `>= x` |
| `Bisect.BisectRight` | consistent_hashing.py:92 | the binary search of `bisect_right` on a sorted list returns exactly `FirstAbove` |
| `Bisect.BisectLeft` | consistent_hashing.py:69 | the binary search of `bisect_left` on a sorted list returns exactly `FirstAtLeast` |
| `Bisect.BisectRightFinds` | consistent_hashing.py:42-47 | on a sorted list, "index > 0 and keys[index-1] == key" after a right bisect holds iff the key is present |
| `Bisect.BisectLeftFinds` | consistent_hashing.py:69-73 | on a sorted list, "index < len and keys[index] == key" after a left bisect holds iff the key is present |
| `Lists.Insert` | consistent_hashing.py:51-52 | `list.insert(i, x)`: one element longer, `x` at index `i`, elements before `i` unchanged, elements from `i` on shifted up by one |
| `Lists.RemoveAt` | consistent_hashing.py:77-78 | `list.pop(i)`: one element shorter, elements before `i` unchanged, elements after `i` shifted down by one |
| `Lists.RemoveInserted` | consistent_hashing.py:51-52 | popping the index just inserted at gives the list back |
| `Lists.InsertRemoved` | consistent_hashing.py:77-78 | inserting the popped element at its old index gives the list back |
| `SortedEdits.InsertKeepsIncreasing` | consistent_hashing.py:50-51 | inserting an absent slot at its right-bisect index keeps the slots strictly increasing |
| `SortedEdits.RemoveKeepsIncreasing` | consistent_hashing.py:77 | popping any index keeps the slots strictly increasing and removes the popped slot entirely |
| `SortedEdits.SuccessorIndex` | consistent_hashing.py:92 | `bisect_right(keys, h) % len(keys)` is always a valid index |
| `SortedEdits.CircularIndex` | consistent_hashing.py:92 | the modulo sends the past-the-end bisect result to 0 and leaves every other index as it is |
| `SortedEdits.SuccessorIndexAfterRemove` | consistent_hashing.py:77-92 | after popping index `i`, a lookup whose successor was not `i` finds the same entry (shifted down by one if after `i`) |
| `SortedEdits.SuccessorIndexAfterInsert` | consistent_hashing.py:51-92 | after inserting `x` at the right-bisect index `p`: a lookup whose successor lay before `p` keeps it; one below `x` whose successor lay at or after `p` lands on the new entry; one at or above `x` lands on its former successor shifted up by one, wrapping to 0 |
| `SortedEdits.SuccessorIndexOntoInserted` | consistent_hashing.py:42-92 | a lookup that lands on the newly inserted entry had, before the insertion, the same successor as the inserted slot |
| `SortedEdits.SuccessorIndexAfterRemoveOwn` | consistent_hashing.py:69-92 | after popping index `i` of strictly increasing slots, a lookup whose successor was `i` lands on the entry that followed it, now at `i`, or at 0 when `i` was last |
| `SortedEdits.PresentValueIndex` | consistent_hashing.py:69 | in strictly increasing slots, `bisect_left` of a present slot is its index, and `bisect` of it after its removal is that index too |
| `SortedEdits.InsertedValueIndex` | consistent_hashing.py:42-69 | `bisect_left` of a slot just inserted at its `bisect` index returns that index |
| `ModuloHashing.TraditionalHashing.HashFn` | traditional_hashing.py:10-16 | the node index is in `[0, n-1]` for `n` storage nodes; with no nodes the modulo by zero fails |
| `ModuloHashing.TraditionalHashing.UploadFileNode` | traditional_hashing.py:18-20 | `upload_file` picks a node of the list, and fails only when the list is empty, then with `ZeroDivisionError` |
| `ModuloHashing.TraditionalHashing.FetchFileNode` | traditional_hashing.py:23-25 | `fetch_file` picks a node of the list, and fails only when the list is empty, then with `ZeroDivisionError` |
| `ModuloHashing.UploadAndFetchAgree` | traditional_hashing.py:18-25 | for every node list, a path is fetched from the very node it is uploaded to, and with no nodes both fail alike |
| `ModuloHashing.UploadPicksHashIndex` | traditional_hashing.py:18-20 | with at least one node, the upload goes to the node at index `hash_fn(path)` |
| `ModuloHashing.ByteSum` | traditional_hashing.py:16 | `sum(bytearray(...))` is a natural number of at most 255 per byte |
| `ModuloHashing.ByteSumReordered` | traditional_hashing.py:16 | the byte sum is the same for any rearrangement of the same bytes |
| `ModuloHashing.HashFnIgnoresByteOrder` | traditional_hashing.py:16 | the node index depends on the multiset of the key's bytes only, not on their order |

## Left out

- The SHA-256 digest and its hex-to-integer conversion (consistent_hashing.py:20-26) are a library computation. `HashFn` takes the digest of a key as a function parameter `digest: string -> nat`. Only the reduction modulo the slot count is modelled. The 256-bit bound of the digest plays no part.
- The UTF-8 encoding of keys is not modelled. The ring's digest takes the string; the traditional hash takes the already-encoded bytes as `seq<byte>`.
- `ConsistentRing.HashFn`: requires `total_slots > 0`. The ring only ever calls it with its own 50 slots, so the division by zero that `% 0` raises in Python is not modelled there.
- The ring stores the hash as a function (`hash`). The constructor fixes it to `HashFn` with the given digest and 50 slots, and it never changes afterwards.
- A `StorageNode` is modelled as an immutable value (`name`, `host`). In Python its `host` attribute could be reassigned after the node joins the ring. The model does not capture that: the ring invariant "every node sits on the slot its host hashes to" relies on it.
- storagenode.py's `fetch_file` and `put_file` perform HTTP requests and file reads. They are not modelled. So `upload_file` and `fetch_file` are modelled only up to the choice of node (`UploadFileNode`, `FetchFileNode`).
- `TraditionalHashing.__init__` only stores the node list; the datatype's field is that list.
- The `__main__` demonstrations of both files print results for hard-coded data and are not modelled.
- The ring has no locking. The model is sequential, and Python's list aliasing (another holder of `self.keys`) is not modelled: `keys` and `nodes` are sequences that the methods reassign.
