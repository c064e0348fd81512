/** The one error of the service layer: an entity looked up or updated by an id the store does
    not hold. The exception's two fields are final, so it is a value. */
module Exceptions {
  import opened Decimal

  datatype EntityNotFoundException = EntityNotFoundException(entity: string, id: int) {

    /** The error text, "<entity> not found with ID <id>.": it starts with the entity name, ends
        with a full stop, and what lies between the infix and the full stop denotes the id. */
    function Message(): (m: string)
      ensures var k := |entity| + |Infix|;
              k < |m| && m[..|entity|] == entity && m[|entity|..k] == Infix && m[|m| - 1] == '.'
              && Denotes(m[k..|m| - 1], id)
    {
      ParseIntToString(id);
      var m := entity + Infix + IntToString(id) + ".";
      assert m[|entity| + |Infix|..|m| - 1] == IntToString(id);
      m
    }
  }

  /** What find and save return: a value, or the exception they would throw. */
  datatype Result<T> = Ok(value: T) | Err(error: EntityNotFoundException)

  const Infix := " not found with ID "

  predicate NoSpace(s: string) {
    forall i :: 0 <= i < |s| ==> s[i] != ' '
  }

  /** The message is the entity name, the fixed infix, the rendered id and a full stop, in that
      order, and the id can be read back from it. */
  lemma MessageLayout(e: EntityNotFoundException)
    ensures var m := e.Message();
            var k := |e.entity| + |Infix|;
            |m| == k + |IntToString(e.id)| + 1
            && m[..|e.entity|] == e.entity
            && m[|e.entity|..k] == Infix
            && m[k..|m| - 1] == IntToString(e.id)
            && m[|m| - 1] == '.'
  {
    var m := e.Message();
    assert m == e.entity + Infix + IntToString(e.id) + ".";
  }

  /** For a one-word entity name, the first space of the message is the one that follows it. */
  lemma FirstSpaceEndsEntity(e: EntityNotFoundException, i: nat)
    requires NoSpace(e.entity)
    requires i < |e.Message()| && e.Message()[i] == ' '
    ensures |e.entity| <= i
  {
    MessageLayout(e);
  }

  /** Two exceptions for one-word entity names have the same message only if they are equal:
      the message identifies both the entity and the id. */
  lemma {:induction false} MessageInjective(a: EntityNotFoundException, b: EntityNotFoundException)
    requires NoSpace(a.entity) && NoSpace(b.entity)
    requires a.Message() == b.Message()
    ensures a == b
  {
    var m := a.Message();
    MessageLayout(a);
    MessageLayout(b);
    // The first space of the message ends the entity name in both.
    FirstSpaceEndsEntity(a, |b.entity|);
    FirstSpaceEndsEntity(b, |a.entity|);
    assert a.entity == m[..|a.entity|] == b.entity;
    IntToStringInjective(a.id, b.id);
  }

  /** With the entity fixed, the message determines the id. */
  lemma {:induction false} MessageDeterminesId(entity: string, m: int, n: int)
    requires EntityNotFoundException(entity, m).Message() == EntityNotFoundException(entity, n).Message()
    ensures m == n
  {
    var a, b := EntityNotFoundException(entity, m), EntityNotFoundException(entity, n);
    MessageLayout(a);
    MessageLayout(b);
    IntToStringInjective(m, n);
  }

  lemma CategoryMessageExample()
    ensures EntityNotFoundException("Category", 3).Message() == "Category not found with ID 3."
  {
  }

  lemma EmployeeMessageExample()
    ensures EntityNotFoundException("Employee", 3).Message() == "Employee not found with ID 3."
  {
  }

  /** A negative id keeps Java's minus sign. */
  lemma NegativeIdMessageExample()
    ensures EntityNotFoundException("Department", -42).Message() == "Department not found with ID -42."
  {
  }
}
