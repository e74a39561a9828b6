/**
 * A repository of entities keyed by id, as the services see it: `save` updates the entity
 * stored under the entity's id, or stores a new entity under a freshly generated id, and
 * may answer without the saved entity; `delete` removes one entry.
 */
module Repositories {
  import opened Domain

  class Repository<T> {
    var entries: map<int, T>
    /** The next identity the persistence layer will assign. */
    var nextId: int
    /** Reads an entity's id. */
    const idOf: T -> Option<int>
    /** The entity with its id set to the one it is stored under. */
    const withId: (T, int) -> T

    ghost predicate Valid()
      reads this
    {
      1 <= nextId && forall k :: k in entries ==> 1 <= k < nextId
    }

    constructor (idOf: T -> Option<int>, withId: (T, int) -> T)
      ensures Valid() && entries == map[] && nextId == 1
      ensures this.idOf == idOf && this.withId == withId
    {
      entries := map[];
      nextId := 1;
      this.idOf := idOf;
      this.withId := withId;
    }

    /** The key `Save(x)` stores `x` under: its own id when that is stored, else a new one. */
    function KeyFor(x: T): (k: int)
      reads this
      requires Valid()
      ensures k in entries <==> (idOf(x).Some? && idOf(x).value in entries)
      ensures k in entries ==> k == idOf(x).value
      ensures k !in entries ==> k == nextId
    {
      if idOf(x).Some? && idOf(x).value in entries then idOf(x).value else nextId
    }

    function FindOne(id: int): (r: Option<T>)
      reads this
      ensures r.Some? <==> id in entries
      ensures r.Some? ==> r.value == entries[id]
    {
      if id in entries then Some(entries[id]) else None
    }

    /** Stores `x`; the answer, when there is one, is the entity as stored. */
    method Save(x: T) returns (saved: Option<T>)
      requires Valid()
      modifies this
      ensures Valid()
      ensures entries == old(entries)[old(KeyFor(x)) := withId(x, old(KeyFor(x)))]
      ensures nextId == if old(KeyFor(x)) == old(nextId) then old(nextId) + 1 else old(nextId)
      ensures saved.Some? ==> saved.value == withId(x, old(KeyFor(x)))
    {
      var k := KeyFor(x);
      entries := entries[k := withId(x, k)];
      if k == nextId {
        nextId := nextId + 1;
      }
      saved := Some(withId(x, k));
    }

    method Delete(id: int)
      requires Valid()
      modifies this
      ensures Valid()
      ensures entries == old(entries) - {id} && nextId == old(nextId)
    {
      entries := entries - {id};
    }
  }
}
