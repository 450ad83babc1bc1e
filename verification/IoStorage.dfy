/** The pool of I/O handles (`drivers/io/io_storage.c`). An entity is named by its
    place in `entity_pool`. */
module IoStorage {
  import opened Words

  class EntityPool {
    /** Each slot is NULL or points at the entity of the same place. */
    const entityMap: array<Option<nat>>
    var entityCount: nat

    constructor (handles: nat)
      ensures Valid() && Taken() == {} && fresh(entityMap) && entityMap.Length == handles
    {
      entityMap := new Option<nat>[handles](_ => None);
      entityCount := 0;
      new;
      assert Taken() == {};
    }

    /** The entities that are handed out. */
    ghost function Taken(): set<nat>
      reads entityMap
    {
      set i: nat | i < entityMap.Length && entityMap[i].Some?
    }

    /** The count is the number of slots in use. */
    ghost predicate Valid()
      reads this, entityMap
    {
      && (forall i :: 0 <= i < entityMap.Length ==> entityMap[i] == None || entityMap[i] == Some(i))
      && entityCount == |Taken()|
    }

    /** `find_first_entity`. */
    method FindFirst(entity: Option<nat>) returns (index: nat)
      ensures index <= entityMap.Length
      ensures index < entityMap.Length ==> entityMap[index] == entity
      ensures forall i :: 0 <= i < index ==> entityMap[i] != entity
    {
      index := 0;
      while index < entityMap.Length
        invariant index <= entityMap.Length
        invariant forall i :: 0 <= i < index ==> entityMap[i] != entity
      {
        if entityMap[index] == entity { return; }
        index := index + 1;
      }
    }

    /** `allocate_entity`: fails exactly when every handle is out, and otherwise hands
        out one that was free. Its assertion that a free slot exists always holds. */
    method Allocate() returns (entity: Option<nat>)
      requires Valid()
      modifies this, entityMap
      ensures Valid()
      ensures entity.None? <==> old(|Taken()|) == entityMap.Length
      ensures entity.None? ==> Taken() == old(Taken())
      ensures entity.Some? ==> entity.value !in old(Taken()) && Taken() == old(Taken()) + {entity.value}
    {
      AllTakenIff();
      if entityCount >= entityMap.Length { return None; }
      var index := FindFirst(None);
      assert index < entityMap.Length;
      entityMap[index] := Some(index);
      entityCount := entityCount + 1;
      assert Taken() == old(Taken()) + {index};
      return Some(index);
    }

    lemma AllTakenIff()
      ensures |Taken()| <= entityMap.Length
      ensures (forall i :: 0 <= i < entityMap.Length ==> entityMap[i].Some?) <==> |Taken()| == entityMap.Length
    {
      var all := Below(entityMap.Length);
      assert Taken() <= all;
      SubsetSize(Taken(), all);
      if Taken() == all {
        forall i | 0 <= i < entityMap.Length ensures entityMap[i].Some? { assert i in all; }
      } else {
        var i :| i in all && i !in Taken();
        assert entityMap[i].None?;
      }
    }

    /** `free_entity`: undoes an allocation. */
    method Free(entity: nat) returns (ok: bool)
      requires Valid()
      modifies this, entityMap
      ensures Valid() && ok == (entity in old(Taken())) && Taken() == old(Taken()) - {entity}
    {
      var index := FindFirst(Some(entity));
      if index == entityMap.Length {
        assert entity !in Taken();
        return false;
      }
      assert index == entity && entity in Taken();
      entityMap[index] := None;
      entityCount := entityCount - 1;
      assert Taken() == old(Taken()) - {entity};
      return true;
    }

    /** `io_open` for a device whose own open function answers `opens`. */
    method Open(opens: bool) returns (handle: Option<nat>)
      requires Valid()
      modifies this, entityMap
      ensures Valid()
      ensures handle.Some? <==> opens && old(|Taken()|) < entityMap.Length
      ensures handle.Some? ==> handle.value !in old(Taken()) && Taken() == old(Taken()) + {handle.value}
      ensures handle.None? ==> Taken() == old(Taken())
    {
      AllTakenIff();
      handle := Allocate();
      if handle.Some? && !opens {
        var _ := Free(handle.value);
        handle := None;
      }
    }

    /** `io_close`: the device's own close function, if there is one, answers `closes`.
        Whatever it answers, the handle is given back. */
    method Close(handle: nat, closes: Option<bool>) returns (ok: bool)
      requires Valid()
      modifies this, entityMap
      ensures Valid() && Taken() == old(Taken()) - {handle}
      ensures ok == (closes != Some(false))
    {
      ok := true;
      if closes.Some? { ok := closes.value; }
      var _ := Free(handle);
    }

    /** A handle that is opened and closed again leaves the pool as it was. */
    method OpenThenClose(opens: bool, closes: Option<bool>) returns (handle: Option<nat>)
      requires Valid()
      modifies this, entityMap
      ensures Valid() && Taken() == old(Taken()) && entityCount == old(entityCount)
    {
      handle := Open(opens);
      if handle.Some? { var _ := Close(handle.value, closes); }
    }
  }

  ghost function Below(n: nat): (s: set<nat>)
    ensures |s| == n && forall i: nat :: i in s <==> i < n
  {
    if n == 0 then {} else Below(n - 1) + {n - 1}
  }
}
