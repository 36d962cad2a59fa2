// MemoryWatchListProvider (Desktop/Tempest.Social/MemoryWatchListProvider.cs):
// the in-memory watch-list store. The Cadenza BidirectionalLookup it keeps is
// the set of (owner, target) pairs `watchLists`; its forward and inverse
// lookups are the comprehensions Watched and Watchers of WatchListContract.
// Every operation is proved to make exactly the transition the contract states.

module MemoryWatchLists {
  import opened Common
  import opened People
  import WatchListContract

  class MemoryWatchListProvider {
    var people: map<string, Person>
    var watchLists: set<(string, string)>

    function State(): WatchListContract.WatchState
      reads this
    {
      WatchListContract.WatchState(people, watchLists)
    }

    predicate Valid()
      reads this
    {
      WatchListContract.Valid(State())
    }

    constructor ()
      ensures Valid() && people == map[] && watchLists == {}
    {
      people := map[];
      watchLists := {};
    }

    method AddAsync(listOwner: Option<Person>, target: Option<Person>) returns (r: Outcome)
      requires Valid()
      modifies this
      ensures Valid()
      ensures var spec := WatchListContract.Add(old(State()), listOwner, target);
        if spec.Ok? then r == Pass && State() == spec.value
        else r == Fail(spec.error) && State() == old(State())
    {
      if listOwner.None? {
        return Fail(ArgumentNull("listOwner"));
      }
      if target.None? {
        return Fail(ArgumentNull("target"));
      }
      var (o, t) := (listOwner.value, target.value);
      people := people[o.identity := o];
      people := people[t.identity := t];
      watchLists := watchLists + {(o.identity, t.identity)};
      r := Pass;
    }

    method AddRangeAsync(listOwner: Option<Person>, targets: Option<seq<Person>>) returns (r: Outcome)
      requires Valid()
      modifies this
      ensures Valid()
      ensures var spec := WatchListContract.AddRange(old(State()), listOwner, targets);
        if spec.Ok? then r == Pass && State() == spec.value
        else r == Fail(spec.error) && State() == old(State())
    {
      if listOwner.None? {
        return Fail(ArgumentNull("listOwner"));
      }
      if targets.None? {
        return Fail(ArgumentNull("targets"));
      }
      var o := listOwner.value;
      var ts := targets.value;
      people := people[o.identity := o];
      ghost var s0 := State();
      var i := 0;
      while i < |ts|
        invariant 0 <= i <= |ts|
        invariant WatchListContract.AddTargets(State(), o.identity, ts[i..])
               == WatchListContract.AddTargets(s0, o.identity, ts)
      {
        var t := ts[i];
        assert ts[i..][1..] == ts[i + 1..];
        people := people[t.identity := t];
        watchLists := watchLists + {(o.identity, t.identity)};
        i := i + 1;
      }
      assert State() == WatchListContract.AddRange(old(State()), listOwner, targets).value;
      r := Pass;
    }

    method RemoveAsync(listOwner: Option<string>, target: Option<string>) returns (r: Outcome)
      requires Valid()
      modifies this
      ensures Valid()
      ensures var spec := WatchListContract.Remove(old(State()), listOwner, target);
        if spec.Ok? then r == Pass && State() == spec.value
        else r == Fail(spec.error) && State() == old(State())
    {
      if listOwner.None? {
        return Fail(ArgumentNull("listOwner"));
      }
      if target.None? {
        return Fail(ArgumentNull("target"));
      }
      watchLists := watchLists - {(listOwner.value, target.value)};
      r := Pass;
    }

    method ClearAsync(listOwner: Option<string>) returns (r: Outcome)
      requires Valid()
      modifies this
      ensures Valid()
      ensures var spec := WatchListContract.Clear(old(State()), listOwner);
        if spec.Ok? then r == Pass && State() == spec.value
        else r == Fail(spec.error) && State() == old(State())
    {
      if listOwner.None? {
        return Fail(ArgumentNull("listOwner"));
      }
      watchLists := set e | e in watchLists && e.0 != listOwner.value;
      r := Pass;
    }

    method GetIsWatcherAsync(watcher: Option<string>, watchee: Option<string>) returns (r: Result<bool>)
      ensures r == WatchListContract.IsWatcher(State(), watcher, watchee)
    {
      if watcher.None? {
        return Err(ArgumentNull("watcher"));
      }
      if watchee.None? {
        return Err(ArgumentNull("watchee"));
      }
      r := Ok((watcher.value, watchee.value) in watchLists);
    }

    /** The `Select (s => people[s]).ToArray()` of both queries: the stored person of
        each identity, once each, in the order the lookup yields them. */
    method PeopleArray(ids: set<string>) returns (out: seq<Person>)
      requires Valid()
      requires forall k :: k in ids ==> k in people
      ensures NoDuplicates(out) && |out| == |ids|
      ensures forall p :: p in out <==> p in WatchListContract.PeopleOf(State(), ids)
    {
      var rest := ids;
      out := [];
      while rest != {}
        invariant rest <= ids
        invariant |out| + |rest| == |ids|
        invariant forall j :: 0 <= j < |out| ==> out[j].identity in ids - rest && out[j] == people[out[j].identity]
        invariant forall k :: k in ids - rest ==> people[k] in out
        invariant NoDuplicates(out)
        decreases rest
      {
        var k :| k in rest;
        out := out + [people[k]];
        rest := rest - {k};
      }
      forall p | p in WatchListContract.PeopleOf(State(), ids)
        ensures p in out
      {
        var k :| k in ids && p == people[k];
      }
    }

    method GetWatchedAsync(listOwner: Option<string>) returns (r: Result<seq<Person>>)
      requires Valid()
      ensures listOwner.None? ==> r == Err(ArgumentNull("listOwner"))
      ensures r.Ok? <==> listOwner.Some?
      ensures r.Ok? ==> NoDuplicates(r.value)
      ensures r.Ok? ==> var ids := WatchListContract.Watched(State(), listOwner.value);
        forall p :: p in r.value <==> p.identity in ids && p == people[p.identity]
    {
      if listOwner.None? {
        return Err(ArgumentNull("listOwner"));
      }
      var ids := set e | e in watchLists && e.0 == listOwner.value :: e.1;
      var out := PeopleArray(ids);
      r := Ok(out);
    }

    method GetWatchersAsync(target: Option<string>) returns (r: Result<seq<Person>>)
      requires Valid()
      ensures target.None? ==> r == Err(ArgumentNull("target"))
      ensures r.Ok? <==> target.Some?
      ensures r.Ok? ==> NoDuplicates(r.value)
      ensures r.Ok? ==> var ids := WatchListContract.Watchers(State(), target.value);
        forall p :: p in r.value <==> p.identity in ids && p == people[p.identity]
    {
      if target.None? {
        return Err(ArgumentNull("target"));
      }
      var ids := set e | e in watchLists && e.1 == target.value :: e.0;
      var out := PeopleArray(ids);
      r := Ok(out);
    }
  }
}
