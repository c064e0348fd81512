/** The persistence store behind each service: a table of records keyed by a store-assigned
    numeric id. The framework repository itself is not part of this model; this module gives it
    the behaviour the services rely on: find by id (first match) and the existence check
    (any match), as the service tests stub them; find all; and insert-or-overwrite under a
    store-generated identity. */
module Store {

  datatype Option<T> = None | Some(value: T)

  /** A stored record: the identity column, assigned by the store, and the entity's other columns. */
  datatype Record<C> = Record(id: int, columns: C)

  predicate DistinctIds<C>(rows: seq<Record<C>>) {
    forall i, j :: 0 <= i < j < |rows| ==> rows[i].id != rows[j].id
  }

  /** Some stored record carries `id` (the repository's existsById). */
  predicate Contains<C>(rows: seq<Record<C>>, id: int) {
    exists i :: 0 <= i < |rows| && rows[i].id == id
  }

  /** The position of the first record carrying `id`, or |rows| when there is none. */
  function FirstIndex<C>(rows: seq<Record<C>>, id: int): (k: nat)
    ensures k <= |rows|
    ensures k < |rows| ==> rows[k].id == id
    ensures forall j :: 0 <= j < k ==> rows[j].id != id
  {
    if rows == [] then 0
    else if rows[0].id == id then 0
    else 1 + FirstIndex(rows[1..], id)
  }

  /** The first record carrying `id`, if any (the repository's findById). */
  function Lookup<C>(rows: seq<Record<C>>, id: int): Option<Record<C>> {
    var k := FirstIndex(rows, id);
    if k < |rows| then Some(rows[k]) else None
  }

  /** Lookup hits exactly when the id is stored, and then returns a stored record with that id
      and no earlier record with that id. */
  lemma LookupSpec<C>(rows: seq<Record<C>>, id: int)
    ensures Lookup(rows, id).Some? <==> Contains(rows, id)
    ensures Lookup(rows, id).Some? ==>
              exists k :: 0 <= k < |rows| && rows[k] == Lookup(rows, id).value && rows[k].id == id
                          && forall j :: 0 <= j < k ==> rows[j].id != id
  {
    var k := FirstIndex(rows, id);
    if k < |rows| {
      assert rows[k] == Lookup(rows, id).value;
    }
  }

  /** With distinct ids, looking up a stored record's id returns that very record. */
  lemma LookupStored<C>(rows: seq<Record<C>>, i: int)
    requires DistinctIds(rows) && 0 <= i < |rows|
    ensures Lookup(rows, rows[i].id) == Some(rows[i])
  {
    var k := FirstIndex(rows, rows[i].id);
    assert k == i;
  }

  /** With distinct ids, at most one stored record carries a given id. */
  lemma StoredRecordUnique<C>(rows: seq<Record<C>>, a: Record<C>, b: Record<C>)
    requires DistinctIds(rows) && a in rows && b in rows && a.id == b.id
    ensures a == b
  {
  }

  /** The largest stored id, or 0 for an empty table. */
  function MaxId<C>(rows: seq<Record<C>>): (m: int)
    ensures m >= 0
    ensures forall i :: 0 <= i < |rows| ==> rows[i].id <= m
  {
    if rows == [] then 0
    else var rest := MaxId(rows[1..]); if rows[0].id > rest then rows[0].id else rest
  }

  /** `after` is `before` with `saved` appended, `saved` carrying a fresh positive id and the
      columns of the record `e` that was handed to the store. */
  ghost predicate Created<C>(before: seq<Record<C>>, after: seq<Record<C>>, e: Record<C>, saved: Record<C>) {
    saved.id > 0 && !Contains(before, saved.id) && saved.columns == e.columns
    && after == before + [saved]
  }

  /** `after` is `before` with every record carrying `e`'s id replaced by `e`, in place. */
  ghost predicate Overwritten<C>(before: seq<Record<C>>, after: seq<Record<C>>, e: Record<C>) {
    |after| == |before|
    && forall i :: 0 <= i < |before| ==> after[i] == (if before[i].id == e.id then e else before[i])
  }

  /** A creation keeps the ids distinct, makes the new record findable, and changes what no
      other id finds. */
  lemma {:induction false} CreatedLookup<C>(before: seq<Record<C>>, after: seq<Record<C>>, e: Record<C>, saved: Record<C>)
    requires DistinctIds(before) && Created(before, after, e, saved)
    ensures DistinctIds(after) && |after| == |before| + 1
    ensures Lookup(after, saved.id) == Some(saved)
    ensures forall id :: id != saved.id ==> Lookup(after, id) == Lookup(before, id)
  {
    assert DistinctIds(after) by {
      forall i, j | 0 <= i < j < |after| ensures after[i].id != after[j].id {
        if j == |before| {
          assert after[i] == before[i];
        }
      }
    }
    LookupStored(after, |before|);
    forall id | id != saved.id ensures Lookup(after, id) == Lookup(before, id) {
      FirstIndexOfPrefix(before, [saved], id);
    }
  }

  /** Appending records that do not carry `id` does not move its first position, and leaves it
      not found when it was not found before. */
  lemma {:induction false} FirstIndexOfPrefix<C>(before: seq<Record<C>>, extra: seq<Record<C>>, id: int)
    requires forall i :: 0 <= i < |extra| ==> extra[i].id != id
    ensures FirstIndex(before + extra, id)
            == if FirstIndex(before, id) < |before| then FirstIndex(before, id) else |before + extra|
  {
    if before != [] {
      assert (before + extra)[1..] == before[1..] + extra;
      FirstIndexOfPrefix(before[1..], extra, id);
    } else {
      assert before + extra == extra;
    }
  }

  /** An overwrite keeps the ids distinct, makes `e` what its id finds (the old values are gone),
      and changes what no other id finds. */
  lemma OverwrittenLookup<C>(before: seq<Record<C>>, after: seq<Record<C>>, e: Record<C>)
    requires DistinctIds(before) && Contains(before, e.id) && Overwritten(before, after, e)
    ensures DistinctIds(after)
    ensures Lookup(after, e.id) == Some(e)
    ensures forall id :: id != e.id ==> Lookup(after, id) == Lookup(before, id)
  {
  }

  /** The store of one entity. Records live in `rows` in the order the store returns them;
      `nextId` is the identity the next creation receives. */
  class Repository<C> {
    var rows: seq<Record<C>>
    var nextId: int

    /** Stored ids are distinct and positive (0 means "not yet persisted"), and all lie below
        `nextId`. */
    ghost predicate Valid()
      reads this
    {
      DistinctIds(rows) && 0 < nextId
      && forall i :: 0 <= i < |rows| ==> 0 < rows[i].id < nextId
    }

    constructor Empty()
      ensures Valid() && rows == [] && nextId == 1
    {
      rows := [];
      nextId := 1;
    }

    /** A store that already holds `initial`; the next identity follows the largest stored one. */
    constructor Seeded(initial: seq<Record<C>>)
      requires DistinctIds(initial)
      requires forall i :: 0 <= i < |initial| ==> initial[i].id > 0
      ensures Valid() && rows == initial && nextId == MaxId(initial) + 1
    {
      rows := initial;
      nextId := MaxId(initial) + 1;
    }

    /** The first stored record carrying `id`; none exactly when no record carries it. */
    function FindById(id: int): (r: Option<Record<C>>)
      reads this
      ensures r.Some? <==> Contains(rows, id)
      ensures r.Some? ==> r.value.id == id && r.value in rows
    {
      LookupSpec(rows, id);
      Lookup(rows, id)
    }

    /** Whether a record carries `id`; it agrees with FindById. */
    predicate ExistsById(id: int)
      reads this
      ensures ExistsById(id) <==> FindById(id).Some?
    {
      Contains(rows, id)
    }

    /** Every stored record in store order; in a valid store their ids are distinct and positive. */
    function FindAll(): (all: seq<Record<C>>)
      reads this
      ensures Valid() ==> DistinctIds(all) && forall i :: 0 <= i < |all| ==> all[i].id > 0
    {
      rows
    }

    /** Inserts `e` under a fresh identity when its id is 0, and otherwise overwrites the stored
        record with that id; returns the record as stored. */
    method Save(e: Record<C>) returns (saved: Record<C>)
      requires Valid()
      requires e.id == 0 || Contains(rows, e.id)
      modifies this
      ensures Valid()
      ensures e.id == 0 ==> Created(old(rows), rows, e, saved)
      ensures e.id != 0 ==> saved == e && Overwritten(old(rows), rows, e)
    {
      if e.id == 0 {
        saved := Record(nextId, e.columns);
        rows := rows + [saved];
        nextId := nextId + 1;
      } else {
        var k := FirstIndex(rows, e.id);
        rows := rows[k := e];
        saved := e;
      }
    }
  }
}
