/** The numbering of commands for the bitmap. */
module AclIds {
  import opened AclRules

  datatype Ids = Ids(byName: map<string, int>, next: int)

  const NO_IDS := Ids(map[], 0)

  /** The id of a name, and the numbering after asking for it. */
  function Assign(s: Ids, name: string): (r: (int, Ids)) {
    var key := Lower(name);
    if key in s.byName then (s.byName[key], s)
    else (s.next, Ids(s.byName[key := s.next], if s.next + 1 == RESERVED then s.next + 2 else s.next + 1))
  }

  function AssignAll(names: seq<string>): Ids {
    if names == [] then NO_IDS else Assign(AssignAll(names[..|names| - 1]), names[|names| - 1]).1
  }

  ghost predicate Numbered(s: Ids) {
    && s.next == |s.byName| + (if |s.byName| >= RESERVED then 1 else 0)
    && (forall n :: n in s.byName ==> 0 <= s.byName[n] < s.next && s.byName[n] != RESERVED)
    && (forall n, m :: n in s.byName && m in s.byName && s.byName[n] == s.byName[m] ==> n == m)
  }

  lemma AssignKeeps(s: Ids, name: string)
    requires Numbered(s)
    ensures Numbered(Assign(s, name).1)
    ensures Lower(name) in Assign(s, name).1.byName && Assign(s, name).1.byName[Lower(name)] == Assign(s, name).0
    ensures forall n :: n in s.byName ==> n in Assign(s, name).1.byName && Assign(s, name).1.byName[n] == s.byName[n]
  {
    if Lower(name) !in s.byName {
      assert |s.byName[Lower(name) := s.next]| == |s.byName| + 1;
    }
  }

  /** Whatever names are registered in whatever order: ids are distinct for names that differ in more
      than case, never the reserved bit, and below it as long as there are at most 1023 names. */
  lemma {:induction false} IdsAreDistinct(names: seq<string>)
    ensures Numbered(AssignAll(names))
    ensures forall n :: n in AssignAll(names).byName && |AssignAll(names).byName| <= RESERVED ==>
              AssignAll(names).byName[n] < RESERVED
  {
    if names != [] {
      IdsAreDistinct(names[..|names| - 1]);
      AssignKeeps(AssignAll(names[..|names| - 1]), names[|names| - 1]);
    }
  }

  class CommandIds {
    var commandId: map<string, int>
    var nextId: int

    ghost function Value(): Ids
      reads this
    {
      Ids(commandId, nextId)
    }

    ghost predicate Valid()
      reads this
    {
      Numbered(Value())
    }

    constructor ()
      ensures Valid() && Value() == NO_IDS
    {
      commandId := map[];
      nextId := 0;
    }

    /** ACLGetCommandID. */
    method GetCommandID(name: string) returns (id: int)
      requires Valid()
      modifies this
      ensures Valid() && (id, Value()) == Assign(old(Value()), name) && id != RESERVED
    {
      AssignKeeps(Value(), name);
      var lowername := Lower(name);
      if lowername in commandId {
        return commandId[lowername];
      }
      commandId := commandId[lowername := nextId];
      id := nextId;
      nextId := nextId + 1;
      if nextId == RESERVED {
        nextId := nextId + 1;
      }
    }
  }
}
