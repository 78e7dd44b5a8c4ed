/** The block servers as the client sees them: bytes stored under ids that are never reused. */
module BlockStore {
  import opened Basics

  type BlockId = nat

  /** What the object's metadata says about one block. */
  datatype BlockInfo = BlockInfo(blockId: BlockId, blockSize: nat)

  datatype ObjectMeta = ObjectMeta(objSize: nat, blocks: seq<BlockInfo>)

  type Blocks = map<BlockId, seq<byte>>

  class Store {
    var data: Blocks
    var nextId: BlockId

    ghost predicate Valid()
      reads this
    {
      forall id :: id in data ==> id < nextId
    }

    constructor ()
      ensures Valid() && data == map[]
    {
      data, nextId := map[], 0;
    }

    /** GenBlockId: an id nobody has used. */
    method NewId() returns (id: BlockId)
      requires Valid()
      modifies this`nextId
      ensures Valid() && id == old(nextId) && nextId == id + 1 && id !in data
    {
      id := nextId;
      nextId := nextId + 1;
    }

    method Put(id: BlockId, bytes: seq<byte>)
      requires Valid() && id < nextId
      modifies this`data
      ensures Valid() && data == old(data)[id := bytes]
    {
      data := data[id := bytes];
    }

    method Delete(id: BlockId)
      requires Valid()
      modifies this`data
      ensures Valid() && data == old(data) - {id}
    {
      data := data - {id};
    }
  }

  /** The blocks that the metadata list, read from the store in order. */
  ghost predicate Readable(infos: seq<BlockInfo>, data: Blocks) {
    forall i :: 0 <= i < |infos| ==> infos[i].blockId in data && |data[infos[i].blockId]| == infos[i].blockSize
  }

  ghost function Fetch(infos: seq<BlockInfo>, data: Blocks): seq<seq<byte>>
    requires Readable(infos, data)
  {
    seq(|infos|, i requires 0 <= i < |infos| => data[infos[i].blockId])
  }

  /** Where block i starts in the object. */
  function Start(infos: seq<BlockInfo>, i: nat): nat
    requires i <= |infos|
  {
    if i == 0 then 0 else Start(infos, i - 1) + infos[i - 1].blockSize
  }

  ghost function Object(infos: seq<BlockInfo>, data: Blocks): seq<byte>
    requires Readable(infos, data)
  {
    Flatten(Fetch(infos, data))
  }

  lemma {:induction false} FrontLength(infos: seq<BlockInfo>, data: Blocks, i: nat)
    requires Readable(infos, data) && i <= |infos|
    ensures |Flatten(Fetch(infos, data)[..i])| == Start(infos, i)
  {
    var parts := Fetch(infos, data);
    if i > 0 {
      FrontLength(infos, data, i - 1);
      assert parts[..i] == parts[..i - 1] + [parts[i - 1]];
      FlattenConcat(parts[..i - 1], [parts[i - 1]]);
      assert Flatten([parts[i - 1]]) == parts[i - 1] + Flatten([]);
    }
  }

  lemma ObjectLength(infos: seq<BlockInfo>, data: Blocks)
    requires Readable(infos, data)
    ensures |Object(infos, data)| == Start(infos, |infos|)
  {
    FrontLength(infos, data, |infos|);
    assert Fetch(infos, data)[..|infos|] == Fetch(infos, data);
  }

  /** The metadata describe an object with the given bytes. */
  ghost predicate Describes(meta: ObjectMeta, data: Blocks, bytes: seq<byte>) {
    Readable(meta.blocks, data) && Object(meta.blocks, data) == bytes && meta.objSize == |bytes|
  }
}
