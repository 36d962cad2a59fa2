// WatchList (Desktop/Tempest.Social/WatchList.cs): the client's own copy of its
// buddy list. Local edits update the list and are sent to the server as
// BuddyListMessages (recorded in `sent`); the server's BuddyListMessages and
// PersonMessages update the list without sending anything. The list is an
// ObservableCollection, whose CollectionChanged notifications are recorded in
// `events` by action.

module Client {
  import opened Common
  import opened Stream
  import opened People
  import opened Messages

  /** The position of the first element equal to `x`. */
  function FirstIndex(s: seq<Person>, x: Person): (i: nat)
    requires x in s
    ensures i < |s| && s[i] == x && x !in s[..i]
    decreases |s|
  {
    if s[0] == x then 0
    else
      var i := FirstIndex(s[1..], x) + 1;
      assert s[..i] == [s[0]] + s[1..][..i - 1];
      i
  }

  /** Past a different head, the first occurrence is one further on in the tail. */
  lemma FirstIndexTail(s: seq<Person>, x: Person)
    requires s != [] && s[0] != x && x in s[1..]
    ensures var i, j := FirstIndex(s, x), FirstIndex(s[1..], x);
      i == j + 1 && s[..i] == [s[0]] + s[1..][..j] && s[i + 1..] == s[1..][j + 1..]
  {
    var j := FirstIndex(s[1..], x);
    assert s[..j + 1] == [s[0]] + s[1..][..j];
  }

  /** `Collection<Person>.Remove (x)`: drops the first element equal to `x`. */
  function RemoveFirst(s: seq<Person>, x: Person): (r: seq<Person>)
    ensures x !in s ==> r == s
    ensures x in s ==> |r| == |s| - 1
    decreases |s|
  {
    if s == [] then []
    else if s[0] == x then s[1..]
    else [s[0]] + RemoveFirst(s[1..], x)
  }

  /** Remove takes out the first copy of `x` and keeps everything else in order. */
  lemma {:induction false} RemoveFirstKeepsOrder(s: seq<Person>, x: Person)
    requires x in s
    ensures RemoveFirst(s, x) == s[..FirstIndex(s, x)] + s[FirstIndex(s, x) + 1..]
    decreases |s|
  {
    if s[0] != x {
      assert x in s[1..] by { assert s == [s[0]] + s[1..]; }
      RemoveFirstKeepsOrder(s[1..], x);
      FirstIndexTail(s, x);
    }
  }

  /** `r` is `s` with some elements dropped and the others in their order. */
  predicate Subsequence(r: seq<Person>, s: seq<Person>)
    decreases |s|
  {
    r == [] || (s != [] && ((r[0] == s[0] && Subsequence(r[1..], s[1..])) || Subsequence(r, s[1..])))
  }

  lemma {:induction false} SubsequenceRefl(s: seq<Person>)
    ensures Subsequence(s, s)
    decreases |s|
  {
    if s != [] {
      SubsequenceRefl(s[1..]);
    }
  }

  lemma {:induction false} SubsequenceTrans(a: seq<Person>, b: seq<Person>, c: seq<Person>)
    requires Subsequence(a, b) && Subsequence(b, c)
    ensures Subsequence(a, c)
    decreases |c|
  {
    if a != [] {
      assert b != [] && c != [];
      if Subsequence(b, c[1..]) {
        SubsequenceTrans(a, b, c[1..]);
      } else {
        assert b[0] == c[0] && Subsequence(b[1..], c[1..]);
        if a[0] == b[0] && Subsequence(a[1..], b[1..]) {
          SubsequenceTrans(a[1..], b[1..], c[1..]);
        } else {
          SubsequenceTrans(a, b[1..], c[1..]);
        }
      }
    }
  }

  lemma {:induction false} DropOneSubsequence(s: seq<Person>, i: nat)
    requires i < |s|
    ensures Subsequence(s[..i] + s[i + 1..], s)
    decreases i
  {
    var t := s[..i] + s[i + 1..];
    if i == 0 {
      assert t == s[1..];
      SubsequenceRefl(s[1..]);
    } else {
      DropOneSubsequence(s[1..], i - 1);
      assert t[0] == s[0];
      assert t[1..] == s[1..][..i - 1] + s[1..][i..];
    }
  }

  /** Remove keeps the order of what remains. */
  lemma RemoveFirstSubsequence(s: seq<Person>, x: Person)
    ensures Subsequence(RemoveFirst(s, x), s)
  {
    if x in s {
      RemoveFirstKeepsOrder(s, x);
      DropOneSubsequence(s, FirstIndex(s, x));
    } else {
      SubsequenceRefl(s);
    }
  }

  /** Remove takes exactly one copy of the person off, when there is one. */
  lemma {:induction false} RemoveFirstMultiset(s: seq<Person>, x: Person)
    ensures multiset(RemoveFirst(s, x)) == multiset(s) - multiset{x}
    decreases |s|
  {
    if s != [] {
      assert s == [s[0]] + s[1..];
      if s[0] != x {
        RemoveFirstMultiset(s[1..], x);
      }
    }
  }

  /** Removes each listed person in turn; the list never grows. */
  function RemoveEach(s: seq<Person>, ps: seq<Person>): (r: seq<Person>)
    ensures |r| <= |s|
    decreases |ps|
  {
    if ps == [] then s else RemoveEach(RemoveFirst(s, ps[0]), ps[1..])
  }

  /** Removing persons one at a time takes each off once, as far as the list holds it. */
  lemma {:induction false} RemoveEachMultiset(s: seq<Person>, ps: seq<Person>)
    ensures multiset(RemoveEach(s, ps)) == multiset(s) - multiset(ps)
    decreases |ps|
  {
    if ps != [] {
      var s1 := RemoveFirst(s, ps[0]);
      calc {
        multiset(RemoveEach(s, ps));
        multiset(RemoveEach(s1, ps[1..]));
        { RemoveEachMultiset(s1, ps[1..]); }
        multiset(s1) - multiset(ps[1..]);
        { RemoveFirstMultiset(s, ps[0]); }
        (multiset(s) - multiset{ps[0]}) - multiset(ps[1..]);
        { MultisetDiffDiff(multiset(s), multiset{ps[0]}, multiset(ps[1..])); }
        multiset(s) - (multiset{ps[0]} + multiset(ps[1..]));
        { assert ps == [ps[0]] + ps[1..]; }
        multiset(s) - multiset(ps);
      }
    }
  }

  /** Removing persons one at a time keeps the order of those that remain. */
  lemma {:induction false} RemoveEachKeepsOrder(s: seq<Person>, ps: seq<Person>)
    ensures Subsequence(RemoveEach(s, ps), s)
    decreases |ps|
  {
    if ps == [] {
      SubsequenceRefl(s);
    } else {
      var s1 := RemoveFirst(s, ps[0]);
      RemoveEachKeepsOrder(s1, ps[1..]);
      RemoveFirstSubsequence(s, ps[0]);
      SubsequenceTrans(RemoveEach(s, ps), s1, s);
    }
  }

  lemma MultisetDiffDiff(a: multiset<Person>, x: multiset<Person>, b: multiset<Person>)
    ensures (a - x) - b == a - (x + b)
  {
    forall y ensures ((a - x) - b)[y] == (a - (x + b))[y] { }
  }

  /** The position of the first person with the given identity (`FirstOrDefault`). */
  function IndexOfIdentity(s: seq<Person>, id: string): (r: Option<nat>)
    ensures r.None? <==> id !in Identities(s)
    ensures r.Some? ==> r.value < |s| && s[r.value].identity == id
    ensures r.Some? ==> forall j :: 0 <= j < r.value ==> s[j].identity != id
    decreases |s|
  {
    if s == [] then None
    else if s[0].identity == id then Some(0)
    else
      match IndexOfIdentity(s[1..], id)
      case None =>
        assert forall p :: p in s ==> p == s[0] || p in s[1..];
        None
      case Some(i) =>
        assert s[1..][i] in s;
        Some(i + 1)
  }

  /** What an incoming PersonMessage does to the list: the first entry with that identity
      takes the announced nickname and status; an unknown identity is appended. */
  function Announced(s: seq<Person>, p: Person): (r: seq<Person>)
    ensures |r| == |s| + (if p.identity in Identities(s) then 0 else 1)
    ensures |s| < |r| ==> r[..|s|] == s && r[|s|] == p
  {
    match IndexOfIdentity(s, p.identity)
    case None => s + [p]
    case Some(i) => s[i := s[i].(nickname := p.nickname, status := p.status)]
  }

  /** After an announce the list holds the identity exactly once more if it was unknown
      and otherwise keeps its length; every other entry is untouched, and the entry the
      identity now resolves to carries the announced nickname and status. */
  lemma AnnouncedEffect(s: seq<Person>, p: Person)
    ensures var r := Announced(s, p);
      && Identities(r) == Identities(s) + {p.identity}
      && |r| == |s| + (if p.identity in Identities(s) then 0 else 1)
      && (forall j :: 0 <= j < |s| && s[j].identity != p.identity ==> r[j] == s[j])
      && IndexOfIdentity(r, p.identity).Some?
      && var q := r[IndexOfIdentity(r, p.identity).value];
         q.nickname == p.nickname && q.status == p.status
  {
    var r := Announced(s, p);
    match IndexOfIdentity(s, p.identity)
    case None =>
      assert p == r[|s|];
      assert Identities(r) == Identities(s) + {p.identity};
    case Some(i) =>
      assert Identities(r) == Identities(s) by {
        forall x | x in Identities(s) ensures x in Identities(r) {
          var q :| q in s && q.identity == x;
          var k :| 0 <= k < |s| && s[k] == q;
          assert r[k].identity == x;
        }
        forall x | x in Identities(r) ensures x in Identities(s) {
          var q :| q in r && q.identity == x;
          var k :| 0 <= k < |r| && r[k] == q;
          assert s[k].identity == x;
        }
      }
      assert IndexOfIdentity(r, p.identity) == Some(i) by {
        var m := IndexOfIdentity(r, p.identity).value;
        assert r[i].identity == p.identity;
        assert m <= i;
        assert r[m] == s[m] || m == i;
      }
  }

  function Adds(n: nat): (r: seq<ChangeAction>)
    ensures |r| == n && forall a :: a in r ==> a == Add
  {
    if n == 0 then [] else Adds(n - 1) + [Add]
  }

  function Removes(n: nat): (r: seq<ChangeAction>)
    ensures |r| == n && forall a :: a in r ==> a == Remove
  {
    if n == 0 then [] else Removes(n - 1) + [Remove]
  }

  class WatchList {
    var people: seq<Person>
    var sent: seq<SocialMessage>
    var events: seq<ChangeAction>

    constructor ()
      ensures people == [] && sent == [] && events == []
    {
      people, sent, events := [], [], [];
    }

    function Count(): (n: nat)
      reads this
      ensures n == |people|
    {
      |people|
    }

    method Add(item: Person)
      modifies this
      ensures people == old(people) + [item] && Count() == old(Count()) + 1
      ensures sent == old(sent) + [BuddyList(ChangeAction.Add, [item])]
      ensures events == old(events) + [ChangeAction.Add]
    {
      people := people + [item];
      events := events + [ChangeAction.Add];
      sent := sent + [BuddyList(ChangeAction.Add, [item])];
    }

    method Clear()
      modifies this
      ensures people == [] && events == old(events) + [Reset]
      ensures sent == old(sent) + [BuddyList(Reset, [])]
    {
      people := [];
      events := events + [Reset];
      sent := sent + [BuddyList(Reset, [])];
    }

    method Contains(item: Person) returns (b: bool)
      ensures b <==> item in people
    {
      b := item in people;
    }

    /** Remove as written: the Remove notice goes to the server whether or not the person
        was on the list. */
    method RemoveAsWritten(item: Person) returns (removed: bool)
      modifies this
      ensures removed <==> item in old(people)
      ensures people == RemoveFirst(old(people), item)
      ensures events == old(events) + (if removed then [ChangeAction.Remove] else [])
      ensures sent == old(sent) + RemoveNoticeAsWritten(old(people), item)
    {
      removed := item in people;
      people := RemoveFirst(people, item);
      if removed {
        events := events + [ChangeAction.Remove];
      }
      sent := sent + [BuddyList(ChangeAction.Remove, [item])];
    }

    /** Remove: the notice goes to the server only when a person was taken off. */
    method Remove(item: Person) returns (removed: bool)
      modifies this
      ensures removed <==> item in old(people)
      ensures people == RemoveFirst(old(people), item)
      ensures events == old(events) + (if removed then [ChangeAction.Remove] else [])
      ensures sent == old(sent) + RemoveNotice(old(people), item)
    {
      removed := item in people;
      people := RemoveFirst(people, item);
      if removed {
        events := events + [ChangeAction.Remove];
        sent := sent + [BuddyList(ChangeAction.Remove, [item])];
      }
    }

    method TryGetPerson(identity: string) returns (found: bool, person: Option<Person>)
      ensures found <==> identity in Identities(people)
      ensures found <==> person.Some?
      ensures found ==> person.value == people[IndexOfIdentity(people, identity).value]
    {
      var i := 0;
      while i < |people|
        invariant 0 <= i <= |people|
        invariant forall j :: 0 <= j < i ==> people[j].identity != identity
      {
        if people[i].identity == identity {
          return true, Some(people[i]);
        }
        i := i + 1;
      }
      assert forall p :: p in people ==> p.identity != identity;
      return false, None;
    }

    method Serialize(w: Writer)
      modifies w
      ensures w.tokens == old(w.tokens) + EncodePeople(people)
    {
      w.WriteCount(|people|);
      var i := 0;
      while i < |people|
        invariant 0 <= i <= |people|
        invariant w.tokens == old(w.tokens) + [TCount(|people|)] + EncodePeopleItems(people[..i])
      {
        WritePerson(w, people[i]);
        EncodePeopleItemsSnoc(people[..i], people[i]);
        assert people[..i + 1] == people[..i] + [people[i]];
        i := i + 1;
      }
      assert people[..i] == people;
    }

    /** Clears the list and fills it from the stream. On a malformed stream the list is
        left empty. Nothing is sent. */
    method Deserialize(r: Reader) returns (ok: bool)
      modifies this, r
      ensures sent == old(sent)
      ensures ok <==> DecodePeople(r.tokens, old(r.pos)).Some?
      ensures ok ==> (people, r.pos) == DecodePeople(r.tokens, old(r.pos)).value
      ensures ok ==> events == old(events) + [Reset] + Adds(|people|)
      ensures !ok ==> people == [] && events == old(events) + [Reset]
    {
      people := [];
      events := events + [Reset];
      var ps := ReadPeople(r);
      if ps.None? {
        return false;
      }
      people := ps.value;
      events := events + Adds(|people|);
      ok := true;
    }

    /** An incoming PersonMessage. */
    method OnPersonMessage(p: Person)
      modifies this
      ensures people == Announced(old(people), p) && sent == old(sent)
      ensures events == old(events) + (if p.identity in Identities(old(people)) then [] else [ChangeAction.Add])
    {
      var found, existing := TryGetPerson(p.identity);
      if found {
        var i := IndexOfIdentity(people, p.identity).value;
        people := people[i := people[i].(nickname := p.nickname, status := p.status)];
      } else {
        people := people + [p];
        events := events + [ChangeAction.Add];
      }
    }

    /** An incoming BuddyListMessage: Reset replaces the list, Add appends, Remove takes
        each person off; any other action is ignored. Nothing is sent back. */
    method OnBuddyListMessage(action: ChangeAction, ps: seq<Person>)
      modifies this
      ensures sent == old(sent)
      ensures action == Reset ==> people == ps && events == old(events) + [Reset] + Adds(|ps|)
      ensures action == ChangeAction.Add ==> people == old(people) + ps && events == old(events) + Adds(|ps|)
      ensures action == ChangeAction.Remove ==>
        people == RemoveEach(old(people), ps) && |people| <= |old(people)| &&
        events == old(events) + Removes(|old(people)| - |people|)
      ensures action !in {Reset, ChangeAction.Add, ChangeAction.Remove} ==>
        people == old(people) && events == old(events)
    {
      match action {
        case Reset =>
          people := [];
          events := events + [Reset];
          AddAll(ps);
        case Add =>
          AddAll(ps);
        case Remove =>
          RemoveAll(ps);
        case _ =>
      }
    }

    /** The `foreach ... people.Remove` loop of the Remove handler. */
    method RemoveAll(ps: seq<Person>)
      modifies this
      ensures people == RemoveEach(old(people), ps) && sent == old(sent)
      ensures |people| <= |old(people)| && events == old(events) + Removes(|old(people)| - |people|)
    {
      var i := 0;
      while i < |ps|
        invariant 0 <= i <= |ps| && sent == old(sent)
        invariant RemoveEach(people, ps[i..]) == RemoveEach(old(people), ps)
        invariant |people| <= |old(people)|
        invariant events == old(events) + Removes(|old(people)| - |people|)
      {
        assert ps[i..][1..] == ps[i + 1..] && ps[i..][0] == ps[i];
        assert RemoveEach(people, ps[i..]) == RemoveEach(RemoveFirst(people, ps[i]), ps[i + 1..]);
        var removed := ps[i] in people;
        ghost var k := |old(people)| - |people|;
        ghost var before := people;
        people := RemoveFirst(people, ps[i]);
        if removed {
          assert |people| == |before| - 1;
          assert Removes(k + 1) == Removes(k) + [ChangeAction.Remove];
          events := events + [ChangeAction.Remove];
          assert events == old(events) + Removes(k + 1);
        } else {
          assert people == before;
        }
        i := i + 1;
      }
      assert ps[i..] == [];
    }

    /** The `foreach ... people.Add` loop of the handlers. */
    method AddAll(ps: seq<Person>)
      modifies this
      ensures people == old(people) + ps && sent == old(sent)
      ensures events == old(events) + Adds(|ps|)
    {
      var i := 0;
      while i < |ps|
        invariant 0 <= i <= |ps| && sent == old(sent)
        invariant people == old(people) + ps[..i]
        invariant events == old(events) + Adds(i)
      {
        assert ps[..i + 1] == ps[..i] + [ps[i]];
        people := people + [ps[i]];
        events := events + [ChangeAction.Add];
        i := i + 1;
      }
      assert ps[..i] == ps;
    }
  }

  /** Appending one person appends its three tokens. */
  lemma {:induction false} EncodePeopleItemsSnoc(ps: seq<Person>, p: Person)
    ensures EncodePeopleItems(ps + [p]) == EncodePeopleItems(ps) + EncodePerson(p)
    decreases |ps|
  {
    if ps == [] {
      assert [p][1..] == [];
    } else {
      assert (ps + [p])[1..] == ps[1..] + [p];
      EncodePeopleItemsSnoc(ps[1..], p);
    }
  }

  /** The notice Remove sends as written, and the one it evidently should send. */
  function RemoveNoticeAsWritten(people: seq<Person>, item: Person): seq<SocialMessage> {
    [BuddyList(ChangeAction.Remove, [item])]
  }

  function RemoveNotice(people: seq<Person>, item: Person): seq<SocialMessage> {
    if item in people then [BuddyList(ChangeAction.Remove, [item])] else []
  }

  /** As written, removing a person who is not on the list still tells the server. */
  lemma RemoveAsWrittenNotifiesOnMiss(item: Person)
    ensures RemoveFirst([], item) == []
    ensures RemoveNoticeAsWritten([], item) == [BuddyList(ChangeAction.Remove, [item])]
    ensures RemoveNotice([], item) == []
  {
  }

  /** Corrected: a notice goes out exactly when the list changed. */
  lemma RemoveNoticeIffChanged(people: seq<Person>, item: Person)
    ensures RemoveNotice(people, item) != [] <==> RemoveFirst(people, item) != people
  {
    if item in people {
      assert |RemoveFirst(people, item)| != |people|;
    }
  }
}
