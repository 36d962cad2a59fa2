// GroupManager (Desktop/Tempest.Social/GroupManager.cs): hands out group ids.
// `nextId` is a C# int, so `nextId++` wraps from int.MaxValue to int.MinValue;
// ids are searched upwards from `nextId`, cyclically, for the first free one.

module GroupManagement {
  import opened Common
  import opened People
  import opened Groups

  const Modulus: int := 0x1_0000_0000

  /** `x++` on an int, in an unchecked context. */
  function Increment(x: Int32): (r: Int32)
    ensures (r - x - 1) % Modulus == 0
  {
    if x == MaxInt32 then MinInt32 else x + 1
  }

  /** How many increments lead from `from` to `to`. */
  function Distance(from: Int32, to: Int32): (d: nat)
    ensures d < Modulus
    ensures d == 0 <==> from == to
  {
    if to >= from then to - from else to - from + Modulus
  }

  /** One increment is one step further, until the search has gone all the way round. */
  lemma DistanceIncrement(from: Int32, x: Int32)
    requires Distance(from, x) + 1 < Modulus
    ensures Distance(from, Increment(x)) == Distance(from, x) + 1
  {
  }

  /** Distinct ids lie at distinct distances from any starting point. */
  lemma DistanceInjective(from: Int32, a: Int32, b: Int32)
    requires Distance(from, a) == Distance(from, b)
    ensures a == b
  {
  }

  /** `id` is the first id at or after `from`, cyclically, that `taken` lacks. */
  predicate FirstFree(taken: set<Int32>, from: Int32, id: Int32) {
    id !in taken && forall y: Int32 :: Distance(from, y) < Distance(from, id) ==> y in taken
  }

  /** The search result is determined by the taken ids and the starting point. */
  lemma FirstFreeUnique(taken: set<Int32>, from: Int32, a: Int32, b: Int32)
    requires FirstFree(taken, from, a) && FirstFree(taken, from, b)
    ensures a == b
  {
    if Distance(from, a) == Distance(from, b) {
      DistanceInjective(from, a, b);
    }
  }

  /** A starting point that is itself free is the answer. */
  lemma FreeStartIsFirst(taken: set<Int32>, from: Int32)
    requires from !in taken
    ensures FirstFree(taken, from, from)
  {
  }

  class GroupManager {
    var nextId: Int32
    var groups: map<Int32, Group>

    /** Each group is filed under its own id. */
    predicate Valid()
      reads this
    {
      forall k :: k in groups ==> groups[k].id == k
    }

    constructor ()
      ensures Valid() && nextId == 0 && groups == map[]
    {
      nextId := 0;
      groups := map[];
    }

    /** CreateGroup (person): the group gets the first free id from `nextId` on and the
        person as its only participant. */
    method CreateGroup(person: Option<Person>) returns (r: Result<Group>)
      requires Valid()
      requires exists y: Int32 :: y !in groups
      modifies this
      ensures Valid()
      ensures person.None? <==> r.Err?
      ensures r.Err? ==> r.error == ArgumentNull("person") && nextId == old(nextId) && groups == old(groups)
      ensures r.Ok? ==> fresh(r.value) && r.value.participants == [person.value.identity]
      ensures r.Ok? ==> FirstFree(old(groups).Keys, old(nextId), r.value.id)
      ensures r.Ok? ==> groups == old(groups)[r.value.id := r.value] && nextId == r.value.id
    {
      if person.None? {
        return Err(ArgumentNull("person"));
      }
      ghost var free :| free !in groups;
      ghost var start := nextId;
      while nextId in groups
        invariant groups == old(groups)
        invariant Distance(start, nextId) <= Distance(start, free)
        invariant forall y: Int32 :: Distance(start, y) < Distance(start, nextId) ==> y in groups
        decreases Distance(start, free) - Distance(start, nextId)
      {
        if Distance(start, nextId) == Distance(start, free) {
          DistanceInjective(start, nextId, free);
        }
        DistanceIncrement(start, nextId);
        forall y: Int32 | Distance(start, y) < Distance(start, Increment(nextId))
          ensures y in groups
        {
          if Distance(start, y) == Distance(start, nextId) {
            DistanceInjective(start, y, nextId);
          }
        }
        nextId := Increment(nextId);
      }
      var g := new Group.WithParticipants(nextId, [person.value.identity]);
      groups := groups[g.id := g];
      r := Ok(g);
    }

    /** LeaveGroup (person, group): checks its arguments and does nothing else. */
    method LeaveGroup(person: Option<Person>, group: Group?) returns (r: Outcome)
      ensures person.None? ==> r == Fail(ArgumentNull("person"))
      ensures person.Some? && group == null ==> r == Fail(ArgumentNull("group"))
      ensures r == Pass <==> person.Some? && group != null
    {
      if person.None? {
        return Fail(ArgumentNull("person"));
      }
      if group == null {
        return Fail(ArgumentNull("group"));
      }
      r := Pass;
    }
  }
}
