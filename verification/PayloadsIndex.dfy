/** The index from payload ids to the blocks, not yet final, that contain them. */
module PayloadsIndexes {
  import opened BlockIndexes

  class PayloadsIndex {
    var entries: map<Id, set<Hash>>

    /** No key is kept without a block. */
    ghost predicate Valid()
      reads this
    {
      forall id <- entries :: entries[id] != {}
    }

    ghost predicate Holds(id: Id, block: Hash)
      reads this
    {
      id in entries && block in entries[id]
    }

    constructor ()
      ensures Valid() && forall i: Id, h: Hash :: !Holds(i, h)
    {
      entries := map[];
    }

    method Add(id: Id, block: Hash)
      requires Valid()
      modifies this
      ensures Valid()
      ensures forall i: Id, h: Hash :: Holds(i, h) <==> old(Holds(i, h)) || (i == id && h == block)
    {
      if id !in entries {
        entries := entries[id := {}];
      }
      entries := entries[id := entries[id] + {block}];
    }

    /** Removes one pair, if it is there, and the key with its last block. */
    method Remove(id: Id, block: Hash)
      requires Valid()
      modifies this
      ensures Valid()
      ensures forall i: Id, h: Hash :: Holds(i, h) <==> old(Holds(i, h)) && !(i == id && h == block)
    {
      if id !in entries {
        return;
      }
      var erased := entries[id] - {block};
      assert forall h <- entries[id] :: h == block || h in erased;
      if erased == {} {
        entries := entries - {id};
      } else {
        entries := entries[id := erased];
      }
    }

    function Find(id: Id): (r: set<Hash>)
      reads this
      ensures forall h: Hash :: h in r <==> Holds(id, h)
    {
      if id in entries then entries[id] else {}
    }
  }
}
