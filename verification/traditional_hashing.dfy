/** Traditional hashing: a file goes to storage node number
    (sum of its path's UTF-8 bytes) mod (number of nodes). */
module ModuloHashing {
  import opened Results
  import opened StorageNodes

  newtype byte = b: int | 0 <= b < 256

  /** `sum(bytearray(...))`: the sum of the bytes of an encoded key, at most
      255 per byte. */
  function ByteSum(bytes: seq<byte>): (sum: nat)
    ensures sum <= 255 * |bytes|
  {
    if bytes == [] then 0 else bytes[0] as nat + ByteSum(bytes[1..])
  }

  /** The sum of a concatenation is the sum of the parts. */
  lemma {:induction false} ByteSumAppend(a: seq<byte>, b: seq<byte>)
    ensures ByteSum(a + b) == ByteSum(a) + ByteSum(b)
  {
    if a != [] {
      assert (a + b)[1..] == a[1..] + b;
      ByteSumAppend(a[1..], b);
    } else {
      assert a + b == b;
    }
  }

  /** Taking out the byte at index `k` takes its value off the sum. */
  lemma {:induction false} ByteSumWithout(b: seq<byte>, k: nat)
    requires k < |b|
    ensures ByteSum(b) == b[k] as nat + ByteSum(b[..k] + b[k + 1..])
    decreases k
  {
    var rest := b[..k] + b[k + 1..];
    if k == 0 {
      assert rest == b[1..];
    } else {
      var tail := b[1..];
      ByteSumWithout(tail, k - 1);
      assert rest[0] == b[0];
      assert rest[1..] == tail[..k - 1] + tail[k..];
    }
  }

  /** Taking out the byte at index `k` takes one copy of it out of the
      multiset of bytes. */
  lemma MultisetWithout(b: seq<byte>, k: nat)
    requires k < |b|
    ensures multiset(b[..k] + b[k + 1..]) == multiset(b) - multiset{b[k]}
  {
    assert b == b[..k] + [b[k]] + b[k + 1..];
    assert multiset(b) == multiset(b[..k]) + multiset{b[k]} + multiset(b[k + 1..]);
  }

  /** The byte sum ignores the order of the bytes: any rearrangement of the
      same bytes has the same sum. */
  lemma {:induction false} ByteSumReordered(a: seq<byte>, b: seq<byte>)
    requires multiset(a) == multiset(b)
    ensures ByteSum(a) == ByteSum(b)
    decreases |a|
  {
    if a != [] {
      assert a[0] in multiset(b);
      var k :| 0 <= k < |b| && b[k] == a[0];
      var rest := b[..k] + b[k + 1..];
      MultisetWithout(b, k);
      MultisetWithout(a, 0);
      assert a[..0] + a[1..] == a[1..];
      assert multiset(a[1..]) == multiset(rest);
      ByteSumReordered(a[1..], rest);
      ByteSumWithout(b, k);
      assert ByteSum(a) == a[0] as nat + ByteSum(a[1..]);
    }
  }

  /** The hasher over a fixed list of storage nodes. */
  datatype TraditionalHashing = TraditionalHashing(storageNodes: seq<StorageNode>)
  {
    /** The index of the node a key belongs to: always a valid index into
        `storageNodes`; with no nodes at all the modulo by zero fails. */
    function HashFn(key: seq<byte>): (r: Result<nat>)
      ensures r.Ok? <==> |storageNodes| > 0
      ensures r.Ok? ==> r.value < |storageNodes|
      ensures r.Err? ==> r.error == ZeroDivisionError
    {
      if |storageNodes| == 0 then Err(ZeroDivisionError)
      else Ok(ByteSum(key) % |storageNodes|)
    }

    /** The node `upload_file` sends a file to. */
    function UploadFileNode(path: seq<byte>): (r: Result<StorageNode>)
      ensures r.Ok? <==> |storageNodes| > 0
      ensures r.Ok? ==> r.value in storageNodes
      ensures r.Err? ==> r.error == ZeroDivisionError
    {
      match HashFn(path)
      case Ok(index) => Ok(storageNodes[index])
      case Err(e) => Err(e)
    }

    /** The node `fetch_file` reads a file from. */
    function FetchFileNode(path: seq<byte>): (r: Result<StorageNode>)
      ensures r.Ok? <==> |storageNodes| > 0
      ensures r.Ok? ==> r.value in storageNodes
      ensures r.Err? ==> r.error == ZeroDivisionError
    {
      match HashFn(path)
      case Ok(index) => Ok(storageNodes[index])
      case Err(e) => Err(e)
    }
  }

  /** A file is fetched from the very node it was uploaded to, and with no
      nodes both fail alike. */
  lemma UploadAndFetchAgree(th: TraditionalHashing, path: seq<byte>)
    ensures th.UploadFileNode(path) == th.FetchFileNode(path)
  {
  }

  /** With at least one node, that node is the one at index `HashFn(path)`. */
  lemma UploadPicksHashIndex(th: TraditionalHashing, path: seq<byte>)
    requires |th.storageNodes| > 0
    ensures th.UploadFileNode(path) == Ok(th.storageNodes[th.HashFn(path).value])
  {
  }

  /** The node index depends only on the multiset of the key's bytes, not on
      their order. */
  lemma HashFnIgnoresByteOrder(th: TraditionalHashing, a: seq<byte>, b: seq<byte>)
    requires multiset(a) == multiset(b)
    ensures th.HashFn(a) == th.HashFn(b)
  {
    ByteSumReordered(a, b);
  }
}
