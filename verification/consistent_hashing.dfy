/** The array-based consistent-hashing ring: two parallel lists, the occupied
    slots in ascending order and the node sitting on each, over a fixed hash
    space of `TotalSlots` slots. */
module ConsistentRing {
  import opened Results
  import opened StorageNodes
  import opened Lists
  import opened Bisect
  import opened SortedEdits

  /** The size of the hash space every ring is created with. */
  const TotalSlots: int := 50

  /** Places a string in the hash space. `digest` stands for the SHA-256 digest
      of the key's UTF-8 bytes read as an unsigned integer; it is a parameter
      because that library computation is not modelled. */
  function HashFn(digest: string -> nat, key: string, totalSlots: int): (slot: int)
    requires totalSlots > 0
    ensures 0 <= slot < totalSlots
  {
    digest(key) % totalSlots
  }

  /** The ring's two lists: `nodes[i]` occupies slot `keys[i]`. */
  datatype Table = Table(keys: seq<int>, nodes: seq<StorageNode>)

  /** The ring invariant: the hash lands in the hash space, the lists run in
      lockstep, the slots ascend strictly, and every node sits on the slot its
      host hashes to. `hash` is `HashFn` with the ring's digest and slot count
      filled in. */
  ghost predicate ValidTable(t: Table, totalSlots: int, hash: string -> int): (v: bool)
    ensures v ==> |t.keys| == |t.nodes|
    ensures v ==> forall i :: 0 <= i < |t.keys| ==> 0 <= t.keys[i] < totalSlots
  {
    && HashInRange(hash, totalSlots)
    && StrictlyIncreasing(t.keys)
    && OnOwnSlots(t, hash)
  }

  /** Every key is placed on one of the `totalSlots` slots. */
  ghost predicate HashInRange(hash: string -> int, totalSlots: int)
  {
    totalSlots > 0 && forall key :: 0 <= hash(key) < totalSlots
  }

  /** The lists have the same length and every node sits on the slot its host
      hashes to. */
  ghost predicate OnOwnSlots(t: Table, hash: string -> int)
  {
    && |t.keys| == |t.nodes|
    && forall i :: 0 <= i < |t.keys| ==> t.keys[i] == hash(t.nodes[i].host)
  }

  /** What `add_node` does to the table: refuse a full ring, refuse an occupied
      slot, otherwise insert slot and node at the same index. */
  function AddNodeSpec(t: Table, node: StorageNode, totalSlots: int, hash: string -> int): (out: (Result<int>, Table))
    requires totalSlots > 0 && |t.keys| == |t.nodes|
    ensures out.0.Err? ==> out.1 == t
    ensures out.0.Ok? ==> out.0.value == hash(node.host) && |out.1.keys| == |out.1.nodes| == |t.keys| + 1
  {
    var slot := hash(node.host);
    if |t.keys| == totalSlots then (Err(HashSpaceFull), t)
    else if slot in t.keys then (Err(CollisionDetected), t)
    else
      var i := FirstAbove(t.keys, slot);
      (Ok(slot), Table(Insert(t.keys, i, slot), Insert(t.nodes, i, node)))
  }

  /** What `remove_node` does to the table: refuse an empty ring, refuse a slot
      nobody occupies (the left-bisect point does not hold the slot), otherwise
      drop the entry at that point from both lists. Only the slot is compared,
      never the node itself. */
  function RemoveNodeSpec(t: Table, node: StorageNode, hash: string -> int): (out: (Result<int>, Table))
    requires |t.keys| == |t.nodes|
    ensures out.0.Err? ==> out.1 == t
    ensures out.0.Ok? ==> out.0.value == hash(node.host) && |out.1.keys| == |out.1.nodes| == |t.keys| - 1
  {
    var slot := hash(node.host);
    var i := FirstAtLeast(t.keys, slot);
    if |t.keys| == 0 then (Err(HashSpaceEmpty), t)
    else if i >= |t.keys| || t.keys[i] != slot then (Err(NodeNotPresent), t)
    else (Ok(slot), Table(RemoveAt(t.keys, i), RemoveAt(t.nodes, i)))
  }

  /** What `assign` answers: the node on the first slot strictly above the
      item's slot, wrapping to the first node; the modulo by an empty ring's
      length fails. */
  function AssignSpec(t: Table, item: string, hash: string -> int): (r: Result<StorageNode>)
    requires |t.keys| == |t.nodes|
    ensures r.Ok? <==> |t.keys| > 0
    ensures r.Ok? ==> r.value in t.nodes
    ensures r.Err? ==> r.error == ZeroDivisionError
  {
    if |t.keys| == 0 then Err(ZeroDivisionError)
    else Ok(t.nodes[SuccessorIndex(t.keys, hash(item))])
  }

  /** Strictly increasing slots are at least as far apart as their indices. */
  lemma {:induction false} SlotsSpread(s: seq<int>, i: nat, j: nat)
    requires StrictlyIncreasing(s)
    requires i <= j < |s|
    ensures s[j] - s[i] >= j - i
    decreases j - i
  {
    if i < j {
      SlotsSpread(s, i + 1, j);
    }
  }

  /** A valid ring never holds more nodes than there are slots. */
  lemma RingSizeBounded(t: Table, totalSlots: int, hash: string -> int)
    requires ValidTable(t, totalSlots, hash)
    ensures |t.keys| <= totalSlots
  {
    if |t.keys| > 0 {
      SlotsSpread(t.keys, 0, |t.keys| - 1);
    }
  }

  /** A full ring occupies every slot, so the capacity check refuses only
      additions that would collide anyway. */
  lemma FullRingTakesEverySlot(t: Table, totalSlots: int, hash: string -> int)
    requires ValidTable(t, totalSlots, hash)
    requires |t.keys| == totalSlots
    ensures forall slot :: 0 <= slot < totalSlots ==> slot in t.keys
  {
    forall slot | 0 <= slot < totalSlots
      ensures slot in t.keys
    {
      SlotsSpread(t.keys, 0, slot);
      SlotsSpread(t.keys, slot, |t.keys| - 1);
      assert t.keys[slot] == slot;
    }
  }

  /** Every node appears at most once in a valid ring. */
  lemma NodesDistinct(t: Table, totalSlots: int, hash: string -> int)
    requires ValidTable(t, totalSlots, hash)
    ensures forall i, j :: 0 <= i < j < |t.nodes| ==> t.nodes[i] != t.nodes[j]
  {
    forall i, j | 0 <= i < j < |t.nodes|
      ensures t.nodes[i] != t.nodes[j]
    {
      assert t.keys[i] < t.keys[j];
    }
  }

  /** Inserting a node together with the slot its host hashes to keeps every
      node on its own slot. */
  lemma InsertKeepsOwnSlots(t: Table, i: nat, node: StorageNode, hash: string -> int)
    requires OnOwnSlots(t, hash) && i <= |t.keys|
    ensures OnOwnSlots(Table(Insert(t.keys, i, hash(node.host)), Insert(t.nodes, i, node)), hash)
  {
  }

  /** `add_node` keeps the ring invariant, and it fails exactly on a full ring
      or an occupied slot. */
  lemma AddNodeKeepsValid(t: Table, node: StorageNode, totalSlots: int, hash: string -> int)
    requires ValidTable(t, totalSlots, hash)
    ensures var (r, after) := AddNodeSpec(t, node, totalSlots, hash);
            var slot := hash(node.host);
            && ValidTable(after, totalSlots, hash)
            && (r == Err(HashSpaceFull) <==> |t.keys| == totalSlots)
            && (r == Err(CollisionDetected) <==> |t.keys| < totalSlots && slot in t.keys)
            && (r.Ok? <==> |t.keys| < totalSlots && slot !in t.keys)
            && (r.Ok? ==> r.value == slot && slot in after.keys && |after.keys| == |t.keys| + 1)
            && (r.Err? ==> after == t)
  {
    var slot := hash(node.host);
    RingSizeBounded(t, totalSlots, hash);
    if |t.keys| < totalSlots && slot !in t.keys {
      var i := FirstAbove(t.keys, slot);
      InsertKeepsIncreasing(t.keys, slot);
      InsertKeepsOwnSlots(t, i, node, hash);
      assert Insert(t.keys, i, slot)[i] == slot;
    }
  }

  /** `remove_node` keeps the ring invariant, and it fails exactly on an empty
      ring or a slot nobody occupies. */
  lemma RemoveNodeKeepsValid(t: Table, node: StorageNode, totalSlots: int, hash: string -> int)
    requires ValidTable(t, totalSlots, hash)
    ensures var (r, after) := RemoveNodeSpec(t, node, hash);
            var slot := hash(node.host);
            && ValidTable(after, totalSlots, hash)
            && (r == Err(HashSpaceEmpty) <==> |t.keys| == 0)
            && (r == Err(NodeNotPresent) <==> |t.keys| > 0 && slot !in t.keys)
            && (r.Ok? <==> slot in t.keys)
            && (r.Ok? ==> r.value == slot && slot !in after.keys && |after.keys| == |t.keys| - 1)
            && (r.Err? ==> after == t)
  {
    var slot := hash(node.host);
    if slot in t.keys {
      BisectLeftFinds(t.keys, slot);
      RemoveKeepsIncreasing(t.keys, FirstAtLeast(t.keys, slot));
    }
  }

  /** `remove_node` looks only at the slot a node's host hashes to: any two
      nodes on the same slot remove the same entry, whichever node occupies
      it. */
  lemma RemoveMatchesSlotOnly(t: Table, a: StorageNode, b: StorageNode, hash: string -> int)
    requires |t.keys| == |t.nodes|
    requires hash(a.host) == hash(b.host)
    ensures RemoveNodeSpec(t, a, hash) == RemoveNodeSpec(t, b, hash)
  {
  }

  /** Adding a node and then removing it restores the ring exactly. */
  lemma AddThenRemoveRestores(t: Table, node: StorageNode, totalSlots: int, hash: string -> int)
    requires ValidTable(t, totalSlots, hash)
    requires AddNodeSpec(t, node, totalSlots, hash).0.Ok?
    ensures var slot := hash(node.host);
            var after := AddNodeSpec(t, node, totalSlots, hash).1;
            RemoveNodeSpec(after, node, hash) == (Ok(slot), t)
  {
    var slot := hash(node.host);
    var i := FirstAbove(t.keys, slot);
    InsertedValueIndex(t.keys, slot);
    RemoveInserted(t.keys, i, slot);
    RemoveInserted(t.nodes, i, node);
  }

  /** Removing the node on a slot and adding that node back restores the ring
      exactly. */
  lemma RemoveThenAddRestores(t: Table, node: StorageNode, i: nat, totalSlots: int, hash: string -> int)
    requires ValidTable(t, totalSlots, hash)
    requires i < |t.keys| && t.keys[i] == hash(node.host)
    ensures RemoveNodeSpec(t, node, hash).0 == Ok(t.keys[i])
    ensures AddNodeSpec(RemoveNodeSpec(t, node, hash).1, t.nodes[i], totalSlots, hash)
              == (Ok(t.keys[i]), t)
  {
    var slot := t.keys[i];
    PresentValueIndex(t.keys, i);
    var after := Table(RemoveAt(t.keys, i), RemoveAt(t.nodes, i));
    assert RemoveNodeSpec(t, node, hash) == (Ok(slot), after);
    RemoveKeepsIncreasing(t.keys, i);
    RingSizeBounded(t, totalSlots, hash);
    assert hash(t.nodes[i].host) == slot;
    assert |after.keys| < totalSlots && slot !in after.keys;
    InsertRemoved(t.keys, i);
    InsertRemoved(t.nodes, i);
  }

  /** `assign` picks the strict clockwise successor of the item's slot: the
      first node strictly above it, the node after it when the slot is itself
      occupied, and the first node when no slot lies above. */
  lemma AssignIsSuccessor(t: Table, item: string, hash: string -> int)
    requires StrictlyIncreasing(t.keys) && |t.keys| == |t.nodes|
    requires |t.keys| > 0
    ensures var h := hash(item);
            var r := AssignSpec(t, item, hash);
            var n := |t.keys|;
            && r.Ok?
            && (forall i :: 0 <= i < n && t.keys[i] > h && (i == 0 || t.keys[i - 1] <= h) ==> r.value == t.nodes[i])
            && (forall i :: 0 <= i < n && t.keys[i] == h ==> r.value == (if i + 1 < n then t.nodes[i + 1] else t.nodes[0]))
            && (t.keys[n - 1] <= h ==> r.value == t.nodes[0])
  {
    var h := hash(item);
    var keys := t.keys;
    var n := |keys|;
    forall i | 0 <= i < n && keys[i] > h && (i == 0 || keys[i - 1] <= h)
      ensures FirstAbove(keys, h) == i
    {
      forall j | 0 <= j < i
        ensures keys[j] <= h
      {
        assert keys[j] <= keys[i - 1];
      }
      FirstAboveIs(keys, h, i);
    }
    forall i | 0 <= i < n && keys[i] == h
      ensures FirstAbove(keys, h) == i + 1
    {
      forall j | 0 <= j <= i
        ensures keys[j] <= h
      {
        assert keys[j] <= keys[i];
      }
      FirstAboveIs(keys, h, i + 1);
    }
    if keys[n - 1] <= h {
      forall j | 0 <= j < n
        ensures keys[j] <= h
      {
        assert keys[j] <= keys[n - 1];
      }
      FirstAboveIs(keys, h, n);
    }
  }

  /** Removing the node on slot index `i` moves only the items that were
      assigned to it; every other item keeps its node. */
  lemma RemoveKeepsOtherAssignments(t: Table, node: StorageNode, i: nat, item: string, totalSlots: int, hash: string -> int)
    requires ValidTable(t, totalSlots, hash)
    requires i < |t.keys| && t.keys[i] == hash(node.host)
    ensures RemoveNodeSpec(t, node, hash).0 == Ok(t.keys[i])
    ensures AssignSpec(t, item, hash) != Ok(t.nodes[i]) ==>
              AssignSpec(RemoveNodeSpec(t, node, hash).1, item, hash)
                == AssignSpec(t, item, hash)
  {
    PresentValueIndex(t.keys, i);
    var after := Table(RemoveAt(t.keys, i), RemoveAt(t.nodes, i));
    assert RemoveNodeSpec(t, node, hash).1 == after;
    var h := hash(item);
    if SuccessorIndex(t.keys, h) != i {
      SuccessorIndexAfterRemove(t.keys, i, h);
    }
  }

  /** Removing the node on slot index `i` sends every item that was assigned
      to it to the next node clockwise. */
  lemma RemoveMovesToNextNode(t: Table, node: StorageNode, i: nat, item: string, totalSlots: int, hash: string -> int)
    requires ValidTable(t, totalSlots, hash)
    requires 1 < |t.keys| && i < |t.keys| && t.keys[i] == hash(node.host)
    requires AssignSpec(t, item, hash) == Ok(t.nodes[i])
    ensures AssignSpec(RemoveNodeSpec(t, node, hash).1, item, hash)
              == Ok(t.nodes[CircularIndex(i + 1, |t.keys|)])
  {
    var n := |t.keys|;
    var h := hash(item);
    NodesDistinct(t, totalSlots, hash);
    assert SuccessorIndex(t.keys, h) == i;
    PresentValueIndex(t.keys, i);
    var after := Table(RemoveAt(t.keys, i), RemoveAt(t.nodes, i));
    assert RemoveNodeSpec(t, node, hash).1 == after;
    SuccessorIndexAfterRemoveOwn(t.keys, i, h);
    var m := CircularIndex(i, n - 1);
    assert after.nodes[m] == t.nodes[CircularIndex(i + 1, n)];
  }

  /** Adding a node moves only items onto the new node; every other item
      keeps its node. */
  lemma AddMovesOnlyToNewNode(t: Table, node: StorageNode, item: string, totalSlots: int, hash: string -> int)
    requires totalSlots > 0 && |t.keys| == |t.nodes|
    requires AddNodeSpec(t, node, totalSlots, hash).0.Ok?
    ensures var r := AssignSpec(AddNodeSpec(t, node, totalSlots, hash).1, item, hash);
            r == Ok(node) || r == AssignSpec(t, item, hash)
  {
    var slot, h := hash(node.host), hash(item);
    var p := FirstAbove(t.keys, slot);
    var after := Table(Insert(t.keys, p, slot), Insert(t.nodes, p, node));
    assert AddNodeSpec(t, node, totalSlots, hash).1 == after;
    SuccessorEntryAfterInsert(t.keys, t.nodes, slot, node, h);
  }

  /** Adding a node moves onto it exactly items that were assigned before to
      the node on the first slot clockwise of the new node's slot. */
  lemma AddMovesFromSuccessor(t: Table, node: StorageNode, item: string, totalSlots: int, hash: string -> int)
    requires ValidTable(t, totalSlots, hash)
    requires |t.keys| > 0
    requires AddNodeSpec(t, node, totalSlots, hash).0.Ok?
    ensures var after := AddNodeSpec(t, node, totalSlots, hash).1;
            AssignSpec(after, item, hash) == Ok(node) ==>
              AssignSpec(t, item, hash) == Ok(t.nodes[SuccessorIndex(t.keys, hash(node.host))])
  {
    var slot, h := hash(node.host), hash(item);
    var p := FirstAbove(t.keys, slot);
    var after := Table(Insert(t.keys, p, slot), Insert(t.nodes, p, node));
    assert AddNodeSpec(t, node, totalSlots, hash).1 == after;
    var j' := SuccessorIndex(after.keys, h);
    if after.nodes[j'] == node {
      InsertKeepsIncreasing(t.keys, slot);
      InsertKeepsOwnSlots(t, p, node, hash);
      assert after.keys[j'] == slot == after.keys[p];
      SuccessorIndexOntoInserted(t.keys, slot, h);
    }
  }

  /** The ring: the two parallel lists, updated in place by `AddNode` and
      `RemoveNode` and read by `Assign`. */
  class ConsistentHashing {
    var keys: seq<int>
    var nodes: seq<StorageNode>
    const totalSlots: int
    /** `hash_fn(key, self.total_slots)`: the slot of a key. */
    const hash: string -> int

    ghost predicate Valid()
      reads this
    {
      totalSlots == TotalSlots && ValidTable(Table(keys, nodes), totalSlots, hash)
    }

    function AsTable(): Table
      reads this
    {
      Table(keys, nodes)
    }

    /** An empty ring over `TotalSlots` slots whose keys are hashed by
        `HashFn` with the given digest. */
    constructor (digest: string -> nat)
      ensures Valid()
      ensures keys == [] && nodes == [] && totalSlots == TotalSlots
      ensures forall key :: hash(key) == HashFn(digest, key, TotalSlots)
    {
      keys := [];
      nodes := [];
      totalSlots := TotalSlots;
      hash := key => HashFn(digest, key, TotalSlots);
    }

    /** Places `node` on the slot its host hashes to and returns that slot. */
    method AddNode(node: StorageNode) returns (r: Result<int>)
      requires Valid()
      modifies this
      ensures Valid()
      ensures (r, AsTable()) == AddNodeSpec(old(AsTable()), node, totalSlots, hash)
    {
      ghost var before := AsTable();
      AddNodeKeepsValid(before, node, totalSlots, hash);
      if |keys| == totalSlots {
        return Err(HashSpaceFull);
      }
      var key := hash(node.host);
      assert Sorted(keys);
      var index := BisectRight(keys, key);
      BisectRightFinds(keys, key);
      if index > 0 && keys[index - 1] == key {
        return Err(CollisionDetected);
      }
      keys := Insert(keys, index, key);
      nodes := Insert(nodes, index, node);
      r := Ok(key);
      assert AddNodeSpec(before, node, totalSlots, hash) == (r, AsTable());
    }

    /** Frees the slot `node`'s host hashes to and returns that slot. */
    method RemoveNode(node: StorageNode) returns (r: Result<int>)
      requires Valid()
      modifies this
      ensures Valid()
      ensures (r, AsTable()) == RemoveNodeSpec(old(AsTable()), node, hash)
    {
      RemoveNodeKeepsValid(AsTable(), node, totalSlots, hash);
      if |keys| == 0 {
        return Err(HashSpaceEmpty);
      }
      var key := hash(node.host);
      var index := BisectLeft(keys, key);
      if index >= |keys| || keys[index] != key {
        return Err(NodeNotPresent);
      }
      keys := RemoveAt(keys, index);
      nodes := RemoveAt(nodes, index);
      return Ok(key);
    }

    /** The node responsible for `item`. */
    method Assign(item: string) returns (r: Result<StorageNode>)
      requires Valid()
      ensures r == AssignSpec(AsTable(), item, hash)
      ensures r.Ok? <==> |keys| > 0
      ensures r.Ok? ==> r.value in nodes
    {
      var key := hash(item);
      var index := BisectRight(keys, key);
      if |keys| == 0 {
        return Err(ZeroDivisionError);
      }
      index := CircularIndex(index, |keys|);
      return Ok(nodes[index]);
    }
  }
}
