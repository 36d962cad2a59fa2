// SocialServer (Desktop/Tempest.Social/SocialServer.cs): the presence registry
// and message router. Each handler runs as one atomic step. The identity the
// identity provider would resolve for the sending connection is a parameter,
// the watch-list provider is a MemoryWatchListProvider, and every
// `connection.Send` or `Disconnect` is appended to `outbox`.

module Server {
  import opened Common
  import opened People
  import opened Messages
  import WatchListContract
  import opened MemoryWatchLists

  /** An IConnection, known only by its identity. */
  type Connection = nat

  const IdentityRejected: string := "Identity not found or verified"

  datatype Outgoing =
    | Send(to: Connection, msg: SocialMessage)
    | Disconnect(conn: Connection, reason: string)

  /** The `people` dictionary and the `connections` BidirectionalDictionary, kept as
      its two directions. */
  datatype Registry = Registry(
    people: map<string, Person>,
    byIdentity: map<string, Connection>,
    byConnection: map<Connection, string>)

  /** Every stored person sits under its own identity, only stored identities are bound,
      and the two directions of `connections` are inverse to each other. */
  predicate RegistryValid(reg: Registry) {
    && (forall k :: k in reg.people ==> reg.people[k].identity == k)
    && reg.byIdentity.Keys <= reg.people.Keys
    && (forall k :: k in reg.byIdentity ==>
          reg.byIdentity[k] in reg.byConnection && reg.byConnection[reg.byIdentity[k]] == k)
    && (forall c :: c in reg.byConnection ==>
          reg.byConnection[c] in reg.byIdentity && reg.byIdentity[reg.byConnection[c]] == c)
  }

  /** `connections[identity] = connection` on the bidirectional dictionary: any earlier
      partner of either side is unbound first. */
  function Bind(reg: Registry, id: string, conn: Connection): (r: Registry)
    requires RegistryValid(reg) && id in reg.people
    ensures RegistryValid(r) && r.people == reg.people
    ensures r.byIdentity.Keys == (reg.byIdentity.Keys - (if conn in reg.byConnection then {reg.byConnection[conn]} else {})) + {id}
    ensures r.byIdentity[id] == conn && r.byConnection[conn] == id
  {
    var byId := if conn in reg.byConnection then reg.byIdentity - {reg.byConnection[conn]} else reg.byIdentity;
    var byConn := if id in reg.byIdentity then reg.byConnection - {reg.byIdentity[id]} else reg.byConnection;
    BindKeepsInverse(reg, id, conn, byId, byConn);
    Registry(reg.people, byId[id := conn], byConn[conn := id])
  }

  /** Binding touches only the pair being bound: every other identity keeps its connection
      and every other connection its identity, while the identity's earlier connection and
      the connection's earlier identity are left unbound. */
  lemma BindFrame(reg: Registry, id: string, conn: Connection)
    requires RegistryValid(reg) && id in reg.people
    ensures var r := Bind(reg, id, conn);
      && r.byConnection.Keys == (reg.byConnection.Keys - (if id in reg.byIdentity then {reg.byIdentity[id]} else {})) + {conn}
      && (forall k :: k in reg.byIdentity && k != id && reg.byIdentity[k] != conn ==>
            k in r.byIdentity && r.byIdentity[k] == reg.byIdentity[k])
      && (forall c :: c in reg.byConnection && c != conn && reg.byConnection[c] != id ==>
            c in r.byConnection && r.byConnection[c] == reg.byConnection[c])
      && (id in reg.byIdentity && reg.byIdentity[id] != conn ==> reg.byIdentity[id] !in r.byConnection)
      && (conn in reg.byConnection && reg.byConnection[conn] != id ==> reg.byConnection[conn] !in r.byIdentity)
  {
    var byId := if conn in reg.byConnection then reg.byIdentity - {reg.byConnection[conn]} else reg.byIdentity;
    var byConn := if id in reg.byIdentity then reg.byConnection - {reg.byIdentity[id]} else reg.byConnection;
    BindDropsOldPartners(reg, id, conn, byId, byConn);
  }

  /** Dropping both old partners keeps the two directions inverse once the new pair is in. */
  lemma BindKeepsInverse(reg: Registry, id: string, conn: Connection,
                         byId: map<string, Connection>, byConn: map<Connection, string>)
    requires RegistryValid(reg)
    requires byId == if conn in reg.byConnection then reg.byIdentity - {reg.byConnection[conn]} else reg.byIdentity
    requires byConn == if id in reg.byIdentity then reg.byConnection - {reg.byIdentity[id]} else reg.byConnection
    ensures forall k :: k in byId && k != id ==> byId[k] in byConn && byId[k] != conn && byConn[byId[k]] == k
    ensures forall c :: c in byConn && c != conn ==> byConn[c] in byId && byConn[c] != id && byId[byConn[c]] == c
    ensures byId.Keys == reg.byIdentity.Keys - (if conn in reg.byConnection then {reg.byConnection[conn]} else {})
    ensures byId.Keys <= reg.people.Keys
  {
  }

  /** Dropping both old partners leaves every other pair as it was. */
  lemma BindDropsOldPartners(reg: Registry, id: string, conn: Connection,
                             byId: map<string, Connection>, byConn: map<Connection, string>)
    requires RegistryValid(reg)
    requires byId == if conn in reg.byConnection then reg.byIdentity - {reg.byConnection[conn]} else reg.byIdentity
    requires byConn == if id in reg.byIdentity then reg.byConnection - {reg.byIdentity[id]} else reg.byConnection
    ensures byConn.Keys == reg.byConnection.Keys - (if id in reg.byIdentity then {reg.byIdentity[id]} else {})
    ensures forall k :: k in reg.byIdentity && reg.byIdentity[k] != conn ==> k in byId && byId[k] == reg.byIdentity[k]
    ensures forall c :: c in reg.byConnection && reg.byConnection[c] != id ==> c in byConn && byConn[c] == reg.byConnection[c]
    ensures conn in reg.byConnection ==> reg.byConnection[conn] !in byId
    ensures id in reg.byIdentity ==> reg.byIdentity[id] !in byConn
  {
  }

  /** What GetPerson yields: an exception escaped (a null or blank identity reached
      the dictionary or the Person constructor), null, or a person. */
  datatype Lookup = Faulted | Unverified | Found(person: Person)

  /** GetPerson (connection): the bound identity of the connection or else the resolved
      one; a person entry is created for an identity seen for the first time. */
  function GetPerson(reg: Registry, conn: Connection, resolved: Option<string>): (r: (Lookup, Registry))
    requires RegistryValid(reg)
    ensures RegistryValid(r.1)
    ensures r.1.byIdentity == reg.byIdentity && r.1.byConnection == reg.byConnection
    ensures reg.people.Keys <= r.1.people.Keys
    ensures forall k :: k in reg.people ==> r.1.people[k] == reg.people[k]
    ensures !r.0.Unverified?
    ensures r.0.Found? ==> r.0.person.identity in r.1.people && r.1.people[r.0.person.identity] == r.0.person
    ensures conn in reg.byConnection ==> r.0.Found? && r.0.person.identity == reg.byConnection[conn] && r.1 == reg
    ensures conn !in reg.byConnection && resolved.None? ==> r == (Faulted, reg)
    ensures conn !in reg.byConnection && resolved.Some? ==> var id := resolved.value;
      && (r.0.Found? ==> r.0.person.identity == id)
      && (id in reg.people ==> r == (Found(reg.people[id]), reg))
      && (id !in reg.people && !IsBlank(id) ==>
            r.0 == Found(Person(id, None, Offline)) && r.1 == reg.(people := reg.people[id := r.0.person]))
      && (id !in reg.people && IsBlank(id) ==> r == (Faulted, reg))
  {
    var identity := if conn in reg.byConnection then Some(reg.byConnection[conn]) else resolved;
    match identity
    case None => (Faulted, reg)
    case Some(id) =>
      if id in reg.people then
        var p := reg.people[id];
        (if p.identity != id then Unverified else Found(p), reg)
      else
        match NewPerson(Some(id))
        case Err(_) => (Faulted, reg)
        case Ok(p) => (Found(p), reg.(people := reg.people[id := p]))
  }

  datatype AnnounceResult = Rejected | Updated(reg: Registry) | Joined(reg: Registry)

  /** The registry part of OnPersonMessage. */
  function Announce(reg: Registry, conn: Connection, resolved: Option<string>, person: Person): (r: AnnounceResult)
    requires RegistryValid(reg)
    ensures resolved != Some(person.identity) <==> r.Rejected?
    ensures r.Updated? <==> resolved == Some(person.identity) && person.identity in reg.people
    ensures !r.Rejected? ==> RegistryValid(r.reg) && reg.people.Keys + {person.identity} == r.reg.people.Keys
    ensures !r.Rejected? ==> forall k :: k in reg.people && k != person.identity ==> r.reg.people[k] == reg.people[k]
    ensures r.Updated? ==>
      && r.reg.byIdentity == reg.byIdentity && r.reg.byConnection == reg.byConnection
      && r.reg.people[person.identity] == reg.people[person.identity].(nickname := person.nickname, status := person.status)
    ensures r.Joined? ==>
      && r.reg.people[person.identity] == person
      && person.identity in r.reg.byIdentity && conn in r.reg.byConnection
      && r.reg.byIdentity[person.identity] == conn && r.reg.byConnection[conn] == person.identity
    ensures r.Joined? ==>
      forall k :: k in reg.byIdentity && reg.byIdentity[k] != conn ==>
        k in r.reg.byIdentity && r.reg.byIdentity[k] == reg.byIdentity[k]
    ensures r.Joined? ==>
      forall c :: c in reg.byConnection && c != conn ==>
        c in r.reg.byConnection && r.reg.byConnection[c] == reg.byConnection[c]
    ensures r.Joined? && conn in reg.byConnection ==> reg.byConnection[conn] !in r.reg.byIdentity
    ensures r.Joined? ==>
      && r.reg.byIdentity.Keys ==
           (reg.byIdentity.Keys - (if conn in reg.byConnection then {reg.byConnection[conn]} else {})) + {person.identity}
      && r.reg.byConnection.Keys == reg.byConnection.Keys + {conn}
  {
    var id := person.identity;
    if resolved.None? || resolved.value != id then Rejected
    else if id in reg.people then
      var stored := reg.people[id];
      Updated(reg.(people := reg.people[id := stored.(nickname := person.nickname, status := person.status)]))
    else
      var reg' := reg.(people := reg.people[id := person]);
      JoinBinds(reg, conn, person);
      Joined(Bind(reg', id, conn))
  }

  /** The registry a first announcement leaves: the person is stored and bound to the
      connection, and no binding other than the connection's earlier one changes. */
  lemma JoinBinds(reg: Registry, conn: Connection, person: Person)
    requires RegistryValid(reg) && person.identity !in reg.people
    ensures var id := person.identity;
      var r := Bind(reg.(people := reg.people[id := person]), id, conn);
      && RegistryValid(r) && r.people == reg.people[id := person]
      && id in r.byIdentity && conn in r.byConnection && r.byIdentity[id] == conn && r.byConnection[conn] == id
      && (forall k :: k in reg.byIdentity && reg.byIdentity[k] != conn ==> k in r.byIdentity && r.byIdentity[k] == reg.byIdentity[k])
      && (forall c :: c in reg.byConnection && c != conn ==> c in r.byConnection && r.byConnection[c] == reg.byConnection[c])
      && (conn in reg.byConnection ==> reg.byConnection[conn] !in r.byIdentity)
      && r.byIdentity.Keys == (reg.byIdentity.Keys - (if conn in reg.byConnection then {reg.byConnection[conn]} else {})) + {id}
      && r.byConnection.Keys == reg.byConnection.Keys + {conn}
  {
    var id := person.identity;
    var reg' := reg.(people := reg.people[id := person]);
    assert RegistryValid(reg');
    BindFrame(reg', id, conn);
  }

  /** What a joining client is sent: a request for its list when the store has none for
      it, otherwise the stored list as a Reset. */
  function Bootstrap(watched: seq<Person>): (m: SocialMessage)
    ensures m == RequestBuddyList <==> watched == []
    ensures m != RequestBuddyList ==> m.BuddyList? && m.action == Reset && m.people == watched
  {
    if |watched| == 0 then RequestBuddyList else BuddyList(Reset, watched)
  }

  /** The announce forwarded to each watcher with a bound connection, in watcher order. */
  function Fanout(watchers: seq<Person>, byIdentity: map<string, Connection>, person: Person): (r: seq<Outgoing>)
    ensures |r| <= |watchers|
    ensures forall o :: o in r ==> o.Send? && o.msg == PersonMessage(person) && o.to in byIdentity.Values
    decreases |watchers|
  {
    if watchers == [] then []
    else
      var w := watchers[0];
      (if w.identity in byIdentity then [Send(byIdentity[w.identity], PersonMessage(person))] else [])
      + Fanout(watchers[1..], byIdentity, person)
  }

  /** A send is in the fan-out iff it goes to the bound connection of some watcher, and
      it always carries the announced person. */
  lemma {:induction false} FanoutExact(watchers: seq<Person>, byIdentity: map<string, Connection>, person: Person, o: Outgoing)
    ensures o in Fanout(watchers, byIdentity, person) <==>
      exists w :: w in watchers && w.identity in byIdentity && o == Send(byIdentity[w.identity], PersonMessage(person))
    decreases |watchers|
  {
    if watchers != [] {
      FanoutExact(watchers[1..], byIdentity, person, o);
      if o in Fanout(watchers[1..], byIdentity, person) {
        var w :| w in watchers[1..] && w.identity in byIdentity && o == Send(byIdentity[w.identity], PersonMessage(person));
        assert w in watchers;
      }
      forall w | w in watchers && w.identity in byIdentity && o == Send(byIdentity[w.identity], PersonMessage(person))
        ensures o in Fanout(watchers, byIdentity, person)
      {
        if w != watchers[0] {
          assert w in watchers[1..];
        }
      }
    }
  }

  /** No identity occurs twice among the watchers (the provider files each person under
      its own identity and returns no person twice). */
  predicate DistinctIdentities(ws: seq<Person>) {
    forall i, j :: 0 <= i < j < |ws| ==> ws[i].identity != ws[j].identity
  }

  /** The provider's watcher lists qualify: no person twice, each filed under its identity. */
  lemma FiledPeopleDistinct(ws: seq<Person>, people: map<string, Person>)
    requires NoDuplicates(ws)
    requires forall p :: p in ws ==> p.identity in people && p == people[p.identity]
    ensures DistinctIdentities(ws)
  {
    forall i, j | 0 <= i < j < |ws| ensures ws[i].identity != ws[j].identity {
      assert ws[i] in ws && ws[j] in ws;
    }
  }

  /** A connection that no watcher is bound to receives nothing. */
  lemma FanoutMisses(watchers: seq<Person>, byIdentity: map<string, Connection>, person: Person, c: Connection)
    requires forall w :: w in watchers && w.identity in byIdentity ==> byIdentity[w.identity] != c
    ensures multiset(Fanout(watchers, byIdentity, person))[Send(c, PersonMessage(person))] == 0
  {
    FanoutExact(watchers, byIdentity, person, Send(c, PersonMessage(person)));
  }

  /** The bound connections of two identities differ (`connections` is one-to-one). */
  lemma BindingInjective(reg: Registry, a: string, b: string)
    requires RegistryValid(reg) && a in reg.byIdentity && b in reg.byIdentity && a != b
    ensures reg.byIdentity[a] != reg.byIdentity[b]
  {
  }

  lemma DistinctTail(ws: seq<Person>)
    requires ws != [] && DistinctIdentities(ws)
    ensures DistinctIdentities(ws[1..])
    ensures forall v :: v in ws[1..] ==> v.identity != ws[0].identity
  {
    forall v | v in ws[1..] ensures v.identity != ws[0].identity {
      var j :| 0 <= j < |ws[1..]| && ws[1..][j] == v;
      assert ws[j + 1] == v;
    }
  }

  /** With distinct watchers and a consistent registry, every watcher with a bound
      connection receives the announce exactly once. */
  lemma {:induction false} FanoutOncePerWatcher(watchers: seq<Person>, reg: Registry, person: Person, w: Person)
    requires RegistryValid(reg) && DistinctIdentities(watchers)
    requires w in watchers && w.identity in reg.byIdentity
    ensures multiset(Fanout(watchers, reg.byIdentity, person))[Send(reg.byIdentity[w.identity], PersonMessage(person))] == 1
    decreases |watchers|
  {
    var c := reg.byIdentity[w.identity];
    var m := Send(c, PersonMessage(person));
    var u := watchers[0];
    var rest := watchers[1..];
    DistinctTail(watchers);
    var head := if u.identity in reg.byIdentity then [Send(reg.byIdentity[u.identity], PersonMessage(person))] else [];
    assert Fanout(watchers, reg.byIdentity, person) == head + Fanout(rest, reg.byIdentity, person);
    if u == w {
      forall v | v in rest && v.identity in reg.byIdentity ensures reg.byIdentity[v.identity] != c {
        BindingInjective(reg, v.identity, w.identity);
      }
      FanoutMisses(rest, reg.byIdentity, person, c);
    } else {
      assert w in rest;
      if u.identity in reg.byIdentity {
        BindingInjective(reg, u.identity, w.identity);
      }
      assert multiset(head)[m] == 0;
      FanoutOncePerWatcher(rest, reg, person, w);
    }
  }

  /** The fan-out has one send per watcher with a bound connection, none for the others. */
  lemma {:induction false} FanoutSkipsUnbound(watchers: seq<Person>, byIdentity: map<string, Connection>, person: Person)
    requires forall w :: w in watchers ==> w.identity !in byIdentity
    ensures Fanout(watchers, byIdentity, person) == []
    decreases |watchers|
  {
    if watchers != [] {
      FanoutSkipsUnbound(watchers[1..], byIdentity, person);
    }
  }

  // ------------------------------------------------------------ buddy lists

  /** One call the buddy-list handler makes on the provider. */
  datatype ProviderCall =
    | AddRangeCall(listOwner: Person, targets: seq<Person>)
    | RemoveCall(owner: string, target: string)
    | ClearCall(owner: string)

  function RemoveCalls(owner: string, ps: seq<Person>): (calls: seq<ProviderCall>)
    ensures |calls| == |ps|
    ensures forall i :: 0 <= i < |ps| ==> calls[i] == RemoveCall(owner, ps[i].identity)
  {
    seq(|ps|, i requires 0 <= i < |ps| => RemoveCall(owner, ps[i].identity))
  }

  /** The list a call acts on. */
  function CallOwner(call: ProviderCall): string {
    match call
    case AddRangeCall(o, _) => o.identity
    case RemoveCall(o, _) => o
    case ClearCall(o) => o
  }

  /** The action switch of OnBuddyListMessage: a sender only ever edits its own list, and
      Move and Replace do nothing. */
  function Dispatch(owner: Person, action: ChangeAction, ps: seq<Person>): (r: seq<ProviderCall>)
    ensures forall c :: c in r ==> CallOwner(c) == owner.identity
    ensures action != Add && action != Remove && action != Reset ==> r == []
  {
    match action
    case Add => [AddRangeCall(owner, ps)]
    case Remove => RemoveCalls(owner.identity, ps)
    case Reset => [ClearCall(owner.identity), AddRangeCall(owner, ps)]
    case _ => []
  }

  function Apply(s: WatchListContract.WatchState, call: ProviderCall): WatchListContract.WatchState {
    match call
    case AddRangeCall(o, ts) => WatchListContract.AddRange(s, Some(o), Some(ts)).value
    case RemoveCall(o, t) => WatchListContract.Remove(s, Some(o), Some(t)).value
    case ClearCall(o) => WatchListContract.Clear(s, Some(o)).value
  }

  function ApplyAll(s: WatchListContract.WatchState, calls: seq<ProviderCall>): WatchListContract.WatchState
    decreases |calls|
  {
    if calls == [] then s else ApplyAll(Apply(s, calls[0]), calls[1..])
  }

  lemma {:induction false} ApplyAllValid(s: WatchListContract.WatchState, calls: seq<ProviderCall>)
    requires WatchListContract.Valid(s)
    ensures WatchListContract.Valid(ApplyAll(s, calls))
    decreases |calls|
  {
    if calls != [] {
      ApplyAllValid(Apply(s, calls[0]), calls[1..]);
    }
  }

  /** Removing a list of persons one by one takes exactly their identities off the
      owner's list and leaves every other list alone. */
  lemma {:induction false} RemoveAllEffect(s: WatchListContract.WatchState, owner: string, ps: seq<Person>)
    ensures WatchListContract.Watched(ApplyAll(s, RemoveCalls(owner, ps)), owner)
         == WatchListContract.Watched(s, owner) - Identities(ps)
    ensures forall x :: x != owner ==>
      WatchListContract.Watched(ApplyAll(s, RemoveCalls(owner, ps)), x) == WatchListContract.Watched(s, x)
    decreases |ps|
  {
    if ps != [] {
      var s1 := Apply(s, RemoveCall(owner, ps[0].identity));
      assert RemoveCalls(owner, ps)[0] == RemoveCall(owner, ps[0].identity);
      assert RemoveCalls(owner, ps)[1..] == RemoveCalls(owner, ps[1..]);
      RemoveAllEffect(s1, owner, ps[1..]);
      assert Identities(ps) == {ps[0].identity} + Identities(ps[1..]) by {
        forall x | x in Identities(ps) ensures x in {ps[0].identity} + Identities(ps[1..]) {
          var p :| p in ps && p.identity == x;
          if p != ps[0] {
            assert p in ps[1..];
          }
        }
      }
    }
  }

  /** The effect of one buddy-list message on the sender's list: Add adds the listed
      persons, Remove takes them off, Reset makes the list exactly them, and any other
      action leaves the store as it is. Other owners' lists never change. */
  lemma DispatchEffect(s: WatchListContract.WatchState, owner: Person, action: ChangeAction, ps: seq<Person>)
    ensures var r := ApplyAll(s, Dispatch(owner, action, ps));
      var (before, after) := (WatchListContract.Watched(s, owner.identity), WatchListContract.Watched(r, owner.identity));
      && (action == Add ==> after == before + Identities(ps))
      && (action == Remove ==> after == before - Identities(ps))
      && (action == Reset ==> after == Identities(ps))
      && (action !in {Add, Remove, Reset} ==> r == s)
      && (forall x :: x != owner.identity ==> WatchListContract.Watched(r, x) == WatchListContract.Watched(s, x))
  {
    match action
    case Add =>
    case Remove => RemoveAllEffect(s, owner.identity, ps);
    case Reset =>
      var calls := Dispatch(owner, action, ps);
      var s1 := Apply(s, ClearCall(owner.identity));
      assert calls[1..] == [AddRangeCall(owner, ps)];
      assert ApplyAll(s1, [AddRangeCall(owner, ps)]) == ApplyAll(Apply(s1, AddRangeCall(owner, ps)), []);
    case _ =>
  }

  // ------------------------------------------------------------- the server

  class SocialServer {
    const provider: MemoryWatchListProvider
    var people: map<string, Person>
    var connections: map<string, Connection>
    var identities: map<Connection, string>
    var outbox: seq<Outgoing>

    function Reg(): Registry
      reads this
    {
      Registry(people, connections, identities)
    }

    predicate Valid()
      reads this, provider
    {
      RegistryValid(Reg()) && provider.Valid()
    }

    constructor (provider: MemoryWatchListProvider)
      requires provider.Valid()
      ensures Valid() && this.provider == provider
      ensures people == map[] && connections == map[] && identities == map[] && outbox == []
    {
      this.provider := provider;
      people, connections, identities := map[], map[], map[];
      outbox := [];
    }

    method GetPersonStep(conn: Connection, resolved: Option<string>) returns (l: Lookup)
      requires Valid()
      modifies this
      ensures Valid() && outbox == old(outbox)
      ensures (l, Reg()) == GetPerson(old(Reg()), conn, resolved)
    {
      var identity: Option<string>;
      if conn in identities {
        identity := Some(identities[conn]);
      } else {
        identity := resolved;
      }
      if identity.None? {
        return Faulted;
      }
      var id := identity.value;
      if id in people {
        var p := people[id];
        if p.identity != id {
          return Unverified;
        }
        return Found(p);
      }
      var created := NewPerson(Some(id));
      if created.Err? {
        return Faulted;
      }
      people := people[id := created.value];
      l := Found(created.value);
    }

    /** The buddy-list handler. The "owner == null" disconnect of the source cannot be
        reached: GetPerson never yields Unverified on a valid registry. */
    method OnBuddyListMessage(conn: Connection, resolved: Option<string>, action: ChangeAction, ps: seq<Person>)
      requires Valid()
      modifies this, provider
      ensures Valid() && outbox == old(outbox)
      ensures Reg() == GetPerson(old(Reg()), conn, resolved).1
      ensures GetPerson(old(Reg()), conn, resolved).0.Found? ==>
        provider.State() == ApplyAll(old(provider.State()), Dispatch(GetPerson(old(Reg()), conn, resolved).0.person, action, ps))
      ensures GetPerson(old(Reg()), conn, resolved).0.Faulted? ==> provider.State() == old(provider.State())
    {
      var owner := GetPersonStep(conn, resolved);
      if owner.Faulted? {
        return;
      }
      if owner.Unverified? {
        assert false;
      }
      ApplyBuddyList(owner.person, action, ps);
    }

    /** The action switch of the buddy-list handler, run against the provider. */
    method ApplyBuddyList(o: Person, action: ChangeAction, ps: seq<Person>)
      requires provider.Valid()
      modifies provider
      ensures provider.Valid()
      ensures provider.State() == ApplyAll(old(provider.State()), Dispatch(o, action, ps))
    {
      ghost var s0 := provider.State();
      ghost var calls := Dispatch(o, action, ps);
      ApplyAllValid(s0, calls);
      match action {
        case Add =>
          var _ := provider.AddRangeAsync(Some(o), Some(ps));
        case Remove =>
          RemoveEach(o.identity, ps);
        case Reset =>
          var _ := provider.ClearAsync(Some(o.identity));
          var _ := provider.AddRangeAsync(Some(o), Some(ps));
          ghost var s1 := Apply(s0, calls[0]);
          assert calls[1..] == [AddRangeCall(o, ps)];
          assert ApplyAll(s1, calls[1..]) == ApplyAll(Apply(s1, calls[1]), []);
        case _ =>
      }
    }

    /** The Remove branch: one RemoveAsync per listed person, in order. */
    method RemoveEach(owner: string, ps: seq<Person>)
      requires provider.Valid()
      modifies provider
      ensures provider.Valid()
      ensures provider.State() == ApplyAll(old(provider.State()), RemoveCalls(owner, ps))
    {
      ghost var s0 := provider.State();
      ghost var calls := RemoveCalls(owner, ps);
      var i := 0;
      while i < |ps|
        invariant 0 <= i <= |ps| && provider.Valid()
        invariant ApplyAll(provider.State(), calls[i..]) == ApplyAll(s0, calls)
      {
        assert calls[i..][1..] == calls[i + 1..];
        var _ := provider.RemoveAsync(Some(owner), Some(ps[i].identity));
        i := i + 1;
      }
    }

    /** The registry update of OnPersonMessage for a verified announce. */
    method Register(conn: Connection, person: Person) returns (justJoined: bool)
      requires RegistryValid(Reg())
      modifies this
      ensures outbox == old(outbox)
      ensures justJoined <==> person.identity !in old(people)
      ensures Reg() == Announce(old(Reg()), conn, Some(person.identity), person).reg
    {
      var id := person.identity;
      justJoined := false;
      if id in people {
        var stored := people[id];
        people := people[id := stored.(nickname := person.nickname, status := person.status)];
      } else {
        people := people[id := person];
        if conn in identities {
          connections := connections - {identities[conn]};
        }
        connections := connections[id := conn];
        identities := identities[conn := id];
        justJoined := true;
      }
    }

    /** The watcher loop of OnPersonMessage: the announce goes to each bound watcher. */
    method Forward(watchers: seq<Person>, person: Person)
      modifies this
      ensures Reg() == old(Reg())
      ensures outbox == old(outbox) + Fanout(watchers, connections, person)
    {
      var i := 0;
      while i < |watchers|
        invariant 0 <= i <= |watchers|
        invariant Reg() == old(Reg())
        invariant outbox + Fanout(watchers[i..], connections, person) == old(outbox) + Fanout(watchers, connections, person)
      {
        assert watchers[i..][1..] == watchers[i + 1..];
        var watcher := watchers[i];
        if watcher.identity in connections {
          outbox := outbox + [Send(connections[watcher.identity], PersonMessage(person))];
        }
        i := i + 1;
      }
    }

    /** The announce handler. Also returns the two lists the provider yielded (empty when
        not queried). */
    method OnPersonMessage(conn: Connection, resolved: Option<string>, person: Person)
      returns (watched: seq<Person>, watchers: seq<Person>)
      requires Valid()
      modifies this
      ensures Valid() && provider.State() == old(provider.State())
      ensures Announce(old(Reg()), conn, resolved, person).Rejected? ==>
        Reg() == old(Reg()) && outbox == old(outbox) + [Disconnect(conn, IdentityRejected)]
      ensures Announce(old(Reg()), conn, resolved, person).Updated? ==>
        Reg() == Announce(old(Reg()), conn, resolved, person).reg &&
        outbox == old(outbox) + Fanout(watchers, connections, person)
      ensures Announce(old(Reg()), conn, resolved, person).Joined? ==>
        Reg() == Announce(old(Reg()), conn, resolved, person).reg &&
        outbox == old(outbox) + [Send(conn, Bootstrap(watched))] + Fanout(watchers, connections, person)
      ensures Announce(old(Reg()), conn, resolved, person).Joined? ==>
        NoDuplicates(watched) &&
        forall p :: p in watched <==>
          p.identity in WatchListContract.Watched(provider.State(), person.identity) && p == provider.people[p.identity]
      ensures !Announce(old(Reg()), conn, resolved, person).Rejected? ==>
        NoDuplicates(watchers) &&
        forall p :: p in watchers <==>
          p.identity in WatchListContract.Watchers(provider.State(), person.identity) && p == provider.people[p.identity]
    {
      var id := person.identity;
      watched := [];
      watchers := [];
      if resolved.None? || resolved.value != id {
        outbox := outbox + [Disconnect(conn, IdentityRejected)];
        return;
      }
      var justJoined := Register(conn, person);
      if justJoined {
        var w := provider.GetWatchedAsync(Some(id));
        watched := w.value;
        outbox := outbox + [Send(conn, Bootstrap(watched))];
      }
      var ws := provider.GetWatchersAsync(Some(id));
      watchers := ws.value;
      Forward(watchers, person);
    }
  }

  // ----------------------------------------------------- registry behaviour

  /** A registry step never removes a person and keeps the registry invariant. */
  lemma PeopleOnlyGrow(reg: Registry, conn: Connection, resolved: Option<string>, person: Person)
    requires RegistryValid(reg)
    ensures reg.people.Keys <= GetPerson(reg, conn, resolved).1.people.Keys
    ensures var a := Announce(reg, conn, resolved, person);
      !a.Rejected? ==> reg.people.Keys <= a.reg.people.Keys && RegistryValid(a.reg)
  {
  }

  /** A buddy-list message that arrives before the sender's first announce creates its
      person without binding the connection; the announce that follows then takes the
      "already known" branch, so the identity is never bound and is never sent its
      list or a request for it. */
  lemma BuddyListBeforeAnnounceNeverBinds(reg: Registry, conn: Connection, person: Person)
    requires RegistryValid(reg)
    requires person.identity !in reg.people && conn !in reg.byConnection
    requires !IsBlank(person.identity)
    ensures var (l, reg1) := GetPerson(reg, conn, Some(person.identity));
      && l.Found? && person.identity in reg1.people && person.identity !in reg1.byIdentity
      && var a := Announce(reg1, conn, Some(person.identity), person);
      && a.Updated? && person.identity !in a.reg.byIdentity && conn !in a.reg.byConnection
  {
  }

  /** By contrast, an announce that comes first binds the identity to the connection. */
  lemma AnnounceFirstBinds(reg: Registry, conn: Connection, person: Person)
    requires RegistryValid(reg)
    requires person.identity !in reg.people
    ensures var a := Announce(reg, conn, Some(person.identity), person);
      a.Joined? && a.reg.byIdentity[person.identity] == conn
  {
  }
}
