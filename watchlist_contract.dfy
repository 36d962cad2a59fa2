// The watch-list provider contract (Desktop/Tempest.Social/IWatchListProvider.cs,
// plus ClearAsync, which the server calls). A provider holds a many-to-many
// relation "owner watches target" between identities, and the latest Person
// supplied for each identity. Each operation is stated here as a transition of
// that abstract state; MemoryWatchListProvider is proved against these.

module WatchListContract {
  import opened Common
  import opened People

  /** The relation as a set of (owner, target) identity pairs, and the stored persons. */
  datatype WatchState = WatchState(people: map<string, Person>, edges: set<(string, string)>)

  /** Every identity in an edge has a stored person, and each stored person is filed
      under its own identity, so the `people[s]` lookups of the queries never miss. */
  predicate Valid(s: WatchState) {
    && (forall k :: k in s.people ==> s.people[k].identity == k)
    && (forall e :: e in s.edges ==> e.0 in s.people && e.1 in s.people)
  }

  /** The identities on `owner`'s list. */
  function Watched(s: WatchState, owner: string): set<string> {
    set e | e in s.edges && e.0 == owner :: e.1
  }

  /** The identities whose list holds `target`. */
  function Watchers(s: WatchState, target: string): set<string> {
    set e | e in s.edges && e.1 == target :: e.0
  }

  /** The stored persons of a set of identities. */
  function PeopleOf(s: WatchState, ids: set<string>): set<Person>
    requires forall k :: k in ids ==> k in s.people
  {
    set k | k in ids :: s.people[k]
  }

  /** The three views of the relation agree: t is on o's list iff o watches t. */
  lemma WatchedWatchersDual(s: WatchState, o: string, t: string)
    ensures t in Watched(s, o) <==> (o, t) in s.edges
    ensures o in Watchers(s, t) <==> (o, t) in s.edges
  {
    if (o, t) in s.edges {
      assert t in Watched(s, o);
      assert o in Watchers(s, t);
    }
  }

  /** Persons supplied in a sequence, filed by identity; a later person wins. */
  function PeopleMap(ts: seq<Person>): (m: map<string, Person>)
    ensures m.Keys == Identities(ts)
    ensures forall k :: k in m ==> m[k].identity == k && m[k] in ts
    decreases |ts|
  {
    if ts == [] then map[] else map[ts[0].identity := ts[0]] + PeopleMap(ts[1..])
  }

  /** The most recently supplied person of an identity is the one kept: a person with
      no later namesake in the batch is the one filed. */
  lemma {:induction false} PeopleMapLast(ts: seq<Person>, j: nat)
    requires j < |ts|
    requires forall j' :: j < j' < |ts| ==> ts[j'].identity != ts[j].identity
    ensures ts[j].identity in PeopleMap(ts) && PeopleMap(ts)[ts[j].identity] == ts[j]
    decreases |ts|
  {
    if j == 0 {
      forall t | t in ts[1..]
        ensures t.identity != ts[0].identity
      {
        var k :| 0 <= k < |ts[1..]| && ts[1..][k] == t;
        assert ts[k + 1] == t;
      }
    } else {
      forall j' | j - 1 < j' < |ts[1..]|
        ensures ts[1..][j'].identity != ts[1..][j - 1].identity
      {
        assert ts[1..][j'] == ts[j' + 1];
      }
      PeopleMapLast(ts[1..], j - 1);
    }
  }

  /** The loop of AddRangeAsync over `targets`, one edge owner->target per element. */
  function AddTargets(s: WatchState, owner: string, ts: seq<Person>): (r: WatchState)
    decreases |ts|
  {
    if ts == [] then s
    else AddTargets(WatchState(s.people[ts[0].identity := ts[0]], s.edges + {(owner, ts[0].identity)}), owner, ts[1..])
  }

  /** Splitting off the first element of the targets splits off its edge. */
  lemma EdgesOfCons(owner: string, ts: seq<Person>)
    requires ts != []
    ensures (set t | t in ts :: (owner, t.identity))
         == {(owner, ts[0].identity)} + (set t | t in ts[1..] :: (owner, t.identity))
  {
    var whole := set t | t in ts :: (owner, t.identity);
    forall e | e in whole
      ensures e in {(owner, ts[0].identity)} + (set t | t in ts[1..] :: (owner, t.identity))
    {
      var t :| t in ts && e == (owner, t.identity);
      if t != ts[0] {
        assert t in ts[1..];
      }
    }
  }

  /** AddTargets adds exactly the edges owner->t, one per target. */
  lemma {:induction false} AddTargetsEdges(s: WatchState, owner: string, ts: seq<Person>)
    ensures AddTargets(s, owner, ts).edges == s.edges + (set t | t in ts :: (owner, t.identity))
    decreases |ts|
  {
    if ts != [] {
      var s' := WatchState(s.people[ts[0].identity := ts[0]], s.edges + {(owner, ts[0].identity)});
      AddTargetsEdges(s', owner, ts[1..]);
      EdgesOfCons(owner, ts);
    }
  }

  /** AddTargets files each target under its identity, a later target winning. */
  lemma {:induction false} AddTargetsPeople(s: WatchState, owner: string, ts: seq<Person>)
    ensures AddTargets(s, owner, ts).people == s.people + PeopleMap(ts)
    decreases |ts|
  {
    if ts != [] {
      var s' := WatchState(s.people[ts[0].identity := ts[0]], s.edges + {(owner, ts[0].identity)});
      AddTargetsPeople(s', owner, ts[1..]);
      UpdateThenMerge(s.people, ts[0].identity, ts[0], PeopleMap(ts[1..]));
    }
  }

  /** Filing one person and then a batch is filing the person-then-batch at once. */
  lemma UpdateThenMerge(m: map<string, Person>, k: string, v: Person, n: map<string, Person>)
    ensures m[k := v] + n == m + (map[k := v] + n)
  {
    var left := m[k := v] + n;
    var right := m + (map[k := v] + n);
    assert left.Keys == right.Keys;
    forall x | x in left
      ensures left[x] == right[x]
    {
    }
  }

  // ------------------------------------------------------------------ operations

  /** AddAsync (listOwner, target). */
  function Add(s: WatchState, owner: Option<Person>, target: Option<Person>): (r: Result<WatchState>)
    ensures owner.None? ==> r == Err(ArgumentNull("listOwner"))
    ensures owner.Some? && target.None? ==> r == Err(ArgumentNull("target"))
    ensures r.Ok? <==> owner.Some? && target.Some?
    ensures r.Ok? ==>
      var (o, t) := (owner.value.identity, target.value.identity);
      && (o, t) in r.value.edges
      && Watched(r.value, o) == Watched(s, o) + {t}
      && Watchers(r.value, t) == Watchers(s, t) + {o}
      && (forall x :: x != o ==> Watched(r.value, x) == Watched(s, x))
      && r.value.people == s.people[o := owner.value][t := target.value]
    ensures Valid(s) && r.Ok? ==> Valid(r.value)
  {
    if owner.None? then Err(ArgumentNull("listOwner"))
    else if target.None? then Err(ArgumentNull("target"))
    else
      var (o, t) := (owner.value, target.value);
      var r := WatchState(s.people[o.identity := o][t.identity := t], s.edges + {(o.identity, t.identity)});
      assert (o.identity, t.identity) in r.edges;
      Ok(r)
  }

  /** AddRangeAsync (listOwner, targets): files the owner, then each target in order. */
  function AddRange(s: WatchState, owner: Option<Person>, targets: Option<seq<Person>>): (r: Result<WatchState>)
    ensures owner.None? ==> r == Err(ArgumentNull("listOwner"))
    ensures owner.Some? && targets.None? ==> r == Err(ArgumentNull("targets"))
    ensures r.Ok? <==> owner.Some? && targets.Some?
    ensures r.Ok? ==>
      var o := owner.value.identity;
      && (forall t :: t in targets.value ==> t.identity in Watched(r.value, o))
      && Watched(r.value, o) == Watched(s, o) + Identities(targets.value)
      && (forall x :: x != o ==> Watched(r.value, x) == Watched(s, x))
      && r.value.people == s.people[o := owner.value] + PeopleMap(targets.value)
    ensures Valid(s) && r.Ok? ==> Valid(r.value)
  {
    if owner.None? then Err(ArgumentNull("listOwner"))
    else if targets.None? then Err(ArgumentNull("targets"))
    else
      var o := owner.value;
      var s0 := WatchState(s.people[o.identity := o], s.edges);
      var r := AddTargets(s0, o.identity, targets.value);
      AddTargetsEdges(s0, o.identity, targets.value);
      AddTargetsPeople(s0, o.identity, targets.value);
      AddRangeViews(s, s0, r, o.identity, targets.value);
      Ok(r)
  }

  lemma AddRangeViews(s: WatchState, s0: WatchState, r: WatchState, o: string, ts: seq<Person>)
    requires s0.edges == s.edges
    requires r.edges == s0.edges + (set t | t in ts :: (o, t.identity))
    ensures Watched(r, o) == Watched(s, o) + Identities(ts)
    ensures forall x :: x != o ==> Watched(r, x) == Watched(s, x)
  {
    forall x | x in Watched(s, o) + Identities(ts)
      ensures x in Watched(r, o)
    {
      if x !in Watched(s, o) {
        var t :| t in ts && t.identity == x;
        assert (o, t.identity) in r.edges;
      }
    }
  }

  /** RemoveAsync (listOwner, target): deletes that one edge. */
  function Remove(s: WatchState, owner: Option<string>, target: Option<string>): (r: Result<WatchState>)
    ensures owner.None? ==> r == Err(ArgumentNull("listOwner"))
    ensures owner.Some? && target.None? ==> r == Err(ArgumentNull("target"))
    ensures r.Ok? <==> owner.Some? && target.Some?
    ensures r.Ok? ==>
      var (o, t) := (owner.value, target.value);
      && Watched(r.value, o) == Watched(s, o) - {t}
      && Watchers(r.value, t) == Watchers(s, t) - {o}
      && (forall x :: x != o ==> Watched(r.value, x) == Watched(s, x))
      && r.value.people == s.people
    ensures Valid(s) && r.Ok? ==> Valid(r.value)
  {
    if owner.None? then Err(ArgumentNull("listOwner"))
    else if target.None? then Err(ArgumentNull("target"))
    else Ok(WatchState(s.people, s.edges - {(owner.value, target.value)}))
  }

  /** ClearAsync (listOwner): deletes every edge from the owner. */
  function Clear(s: WatchState, owner: Option<string>): (r: Result<WatchState>)
    ensures owner.None? ==> r == Err(ArgumentNull("listOwner"))
    ensures r.Ok? <==> owner.Some?
    ensures r.Ok? ==>
      var o := owner.value;
      && Watched(r.value, o) == {}
      && (forall t :: Watchers(r.value, t) == Watchers(s, t) - {o})
      && (forall x :: x != o ==> Watched(r.value, x) == Watched(s, x))
      && r.value.people == s.people
    ensures Valid(s) && r.Ok? ==> Valid(r.value)
  {
    if owner.None? then Err(ArgumentNull("listOwner"))
    else Ok(WatchState(s.people, set e | e in s.edges && e.0 != owner.value))
  }

  /** GetIsWatcherAsync (watcher, watchee). */
  function IsWatcher(s: WatchState, watcher: Option<string>, watchee: Option<string>): (r: Result<bool>)
    ensures watcher.None? ==> r == Err(ArgumentNull("watcher"))
    ensures watcher.Some? && watchee.None? ==> r == Err(ArgumentNull("watchee"))
    ensures watcher.Some? && watchee.Some? ==>
      r.Ok? && (r.value <==> watchee.value in Watched(s, watcher.value))
            && (r.value <==> watcher.value in Watchers(s, watchee.value))
  {
    if watcher.None? then Err(ArgumentNull("watcher"))
    else if watchee.None? then Err(ArgumentNull("watchee"))
    else
      WatchedWatchersDual(s, watcher.value, watchee.value);
      Ok((watcher.value, watchee.value) in s.edges)
  }

  /** An identity that has never been added has an empty list and no watchers. */
  lemma EmptyForUnknown(s: WatchState, id: string)
    requires Valid(s) && id !in s.people
    ensures Watched(s, id) == {} && Watchers(s, id) == {}
  {
  }

  /** Adding B and C to A's list and then removing B leaves A watching exactly C. */
  lemma AddRangeThenRemove(s: WatchState, a: Person, b: Person, c: Person)
    requires Watched(s, a.identity) == {}
    ensures var r1 := AddRange(s, Some(a), Some([b, c]));
      r1.Ok? && Watched(r1.value, a.identity) == {b.identity, c.identity} &&
      var r2 := Remove(r1.value, Some(a.identity), Some(b.identity));
      r2.Ok? && Watched(r2.value, a.identity) == {b.identity, c.identity} - {b.identity}
  {
    var ts := [b, c];
    assert Identities(ts) == {b.identity, c.identity} by {
      assert ts[0] == b && ts[1] == c;
    }
  }
}
