/** The metadata storage of one placement group, over an abstract key-value column family. */
module MetaStorage {
  import opened Basics
  import opened MetaStore

  /** infos.CfContent: the keys and values of a column family, in iteration order. */
  datatype CfContent = CfContent(keys: seq<string>, values: seq<ObjectMeta>)

  ghost predicate Captures(c: CfContent, m: Store) {
    && |c.keys| == |c.values|
    && (forall i, j :: 0 <= i < j < |c.keys| ==> c.keys[i] != c.keys[j])
    && (forall i :: 0 <= i < |c.keys| ==> c.keys[i] in m && m[c.keys[i]] == c.values[i])
    && (forall key :: key in m ==> key in c.keys)
  }

  /** The listed metadata are the stored ones under the prefix, each exactly once. */
  ghost predicate ListsExactly(result: seq<ObjectMeta>, m: Store, prefix: string) {
    && (forall i, j :: 0 <= i < j < |result| ==> result[i].objId != result[j].objId)
    && (forall meta :: meta in result <==>
          meta.objId in m && m[meta.objId] == meta && prefix <= meta.objId)
  }

  lemma OverlayPut(db: Store, m: Store, key: string, meta: ObjectMeta)
    ensures Overlay(db, m[key := meta]) == Overlay(db, m)[key := meta]
  {
  }

  class RocksDBMetaStorage {
    var db: Store

    /** Metadata are stored under their own object id. */
    ghost predicate Valid()
      reads this
    {
      forall key :: key in db ==> db[key].objId == key
    }

    constructor ()
      ensures Valid() && db == map[]
    {
      db := map[];
    }

    method RecordMeta(meta: ObjectMeta)
      requires Valid()
      modifies this
      ensures Valid() && forall op: nat :: db == Apply(old(db), Put(op, meta))
    {
      db := db[meta.objId := meta];
    }

    method Delete(objId: string)
      requires Valid()
      modifies this
      ensures Valid() && forall op: nat, meta: ObjectMeta :: meta.objId == objId ==> db == Apply(old(db), Entry.Delete(op, meta))
    {
      db := db - {objId};
    }

    method GetMeta(objId: string) returns (meta: Option<ObjectMeta>)
      ensures meta.Some? <==> objId in db
      ensures meta.Some? ==> meta.value == db[objId]
    {
      meta := if objId in db then Some(db[objId]) else None;
    }

    method List(prefix: string) returns (result: seq<ObjectMeta>)
      requires Valid()
      ensures ListsExactly(result, db, prefix)
    {
      result := [];
      var todo := db.Keys;
      while todo != {}
        invariant todo <= db.Keys && ListsExactly(result, db - todo, prefix)
        decreases |todo|
      {
        var key :| key in todo;
        todo := todo - {key};
        if prefix <= key {
          result := result + [db[key]];
        }
      }
      assert db - todo == db;
    }

    method CreateSnapshot() returns (c: CfContent)
      ensures Captures(c, db)
    {
      c := CfContent([], []);
      var todo := db.Keys;
      while todo != {}
        invariant todo <= db.Keys && Captures(c, db - todo)
        decreases |todo|
      {
        var key :| key in todo;
        assert key !in c.keys;
        c := CfContent(c.keys + [key], c.values + [db[key]]);
        todo := todo - {key};
      }
      assert db - todo == db;
    }

    /** Puts the captured pairs one by one; nothing is deleted. */
    method RecoverFromSnapshot(c: CfContent, ghost m: Store)
      requires Captures(c, m)
      modifies this
      ensures db == Overlay(old(db), m)
    {
      ghost var got: Store := map[];
      for i := 0 to |c.keys|
        invariant db == Overlay(old(db), got)
        invariant forall j :: 0 <= j < i ==> c.keys[j] in got
        invariant forall key :: key in got ==> key in m && got[key] == m[key]
      {
        hide Overlay;
        OverlayPut(old(db), got, c.keys[i], c.values[i]);
        db := db[c.keys[i] := c.values[i]];
        got := got[c.keys[i] := c.values[i]];
      }
      assert got == m;
    }
  }
}
