// Person (Desktop/Tempest.Social/Person.cs): an identity with a nickname and
// a status. The datatype `Person` is the value that collections, messages and
// codecs carry; `PersonObject` is a person as a live object, whose setters and
// Deserialize update it in place and raise PropertyChanged notifications.

module People {
  import opened Common
  import opened Stream

  /** Status is an enum derived from byte, so a person may hold any byte. */
  const Offline: Byte := 0
  const Online: Byte := 1
  const Away: Byte := 2

  datatype Person = Person(identity: string, nickname: Option<string>, status: Byte)

  /** The identities of a list of persons. */
  function Identities(ps: seq<Person>): set<string> {
    set p | p in ps :: p.identity
  }

  /** The characters System.Char.IsWhiteSpace accepts, which String.Trim removes. */
  predicate IsWhiteSpace(c: char) {
    ('\U{9}' <= c <= '\U{D}') || c == '\U{20}' || c == '\U{85}' || c == '\U{A0}' ||
    c == '\U{1680}' || ('\U{2000}' <= c <= '\U{200A}') || c == '\U{2028}' || c == '\U{2029}' ||
    c == '\U{202F}' || c == '\U{205F}' || c == '\U{3000}'
  }

  /** `s.Trim() == String.Empty`. */
  predicate IsBlank(s: string) {
    forall i :: 0 <= i < |s| ==> IsWhiteSpace(s[i])
  }

  /** `new Person (identity)`. */
  function NewPerson(identity: Option<string>): (r: Result<Person>)
    ensures identity.None? ==> r == Err(ArgumentNull("identity"))
    ensures identity.Some? && IsBlank(identity.value) ==> r == Err(ArgumentInvalid("identity"))
    ensures r.Ok? <==> identity.Some? && !IsBlank(identity.value)
    ensures r.Ok? ==> r.value.identity == identity.value && r.value.status == Offline && r.value.nickname == None
  {
    match identity
    case None => Err(ArgumentNull("identity"))
    case Some(id) =>
      if exists i :: 0 <= i < |id| && !IsWhiteSpace(id[i]) then Ok(Person(id, None, Offline))
      else Err(ArgumentInvalid("identity"))
  }

  /** `Person.Equals (Person other)`; `Equals (object)` behaves the same on persons. */
  function Equals(self: Person, other: Option<Person>): (r: bool)
    ensures r <==> other == Some(self)
    ensures other.None? ==> !r
  {
    match other
    case None => false
    case Some(o) => self.nickname == o.nickname && self.status == o.status && self.identity == o.identity
  }

  /** `operator ==`, which is static `object.Equals (left, right)`. */
  function OpEquals(left: Option<Person>, right: Option<Person>): (r: bool)
    ensures r <==> left == right
  {
    match left
    case None => right.None?
    case Some(l) => Equals(l, right)
  }

  /** `operator !=`. */
  function OpNotEquals(left: Option<Person>, right: Option<Person>): (r: bool)
    ensures r <==> left != right
    ensures r != OpEquals(left, right)
  {
    !OpEquals(left, right)
  }

  // ---------------------------------------------------------------- codec

  /** Person.Serialize: identity, nickname, status byte. */
  function EncodePerson(p: Person): (r: seq<Token>)
    ensures DecodePerson(r, 0) == Some((p, |r|))
  {
    [TString(Some(p.identity)), TString(p.nickname), TByte(p.status)]
  }

  /** Person.Deserialize as a function of the stream: the person read at `pos` and the
      position after it. A null identity is not representable here and fails. */
  function DecodePerson(ts: seq<Token>, pos: nat): (r: Option<(Person, nat)>)
    ensures r.Some? ==> r.value.1 == pos + 3 <= |ts|
  {
    if pos + 3 <= |ts| && ts[pos].TString? && ts[pos].s.Some? && ts[pos + 1].TString? && ts[pos + 2].TByte?
    then Some((Person(ts[pos].s.value, ts[pos + 1].s, ts[pos + 2].b), pos + 3))
    else None
  }

  /** Whatever reads as a person is exactly that person serialized: decoding inverts
      encoding in this direction too. */
  lemma DecodePersonInverse(ts: seq<Token>, pos: nat)
    requires DecodePerson(ts, pos).Some?
    ensures ts[pos..pos + 3] == EncodePerson(DecodePerson(ts, pos).value.0)
  {
    var e := EncodePerson(DecodePerson(ts, pos).value.0);
    assert ts[pos..pos + 3][0] == e[0] && ts[pos..pos + 3][1] == e[1] && ts[pos..pos + 3][2] == e[2];
  }

  lemma PersonRoundTrip(p: Person, before: seq<Token>, after: seq<Token>)
    ensures DecodePerson(before + EncodePerson(p) + after, |before|) == Some((p, |before| + 3))
  {
    var ts := before + EncodePerson(p) + after;
    assert ts[|before|..|before| + 3] == EncodePerson(p);
  }

  /** WriteEnumerable of persons: the count, then each person. */
  /** Person.Serialize on a person's value, as WriteEnumerable calls it for each item. */
  method WritePerson(w: Writer, p: Person)
    modifies w
    ensures w.tokens == old(w.tokens) + EncodePerson(p)
  {
    w.WriteString(Some(p.identity));
    w.WriteString(p.nickname);
    w.WriteByte(p.status);
  }

  function EncodePeople(ps: seq<Person>): seq<Token> {
    [TCount(|ps|)] + EncodePeopleItems(ps)
  }

  function EncodePeopleItems(ps: seq<Person>): (r: seq<Token>)
    ensures |r| == 3 * |ps|
  {
    if ps == [] then [] else EncodePerson(ps[0]) + EncodePeopleItems(ps[1..])
  }

  /** Reads `n` persons starting at `pos`. */
  function DecodePeopleItems(ts: seq<Token>, pos: nat, n: nat): (r: Option<(seq<Person>, nat)>)
    ensures r.Some? ==> |r.value.0| == n && r.value.1 == pos + 3 * n
    decreases n
  {
    if n == 0 then Some(([], pos))
    else match DecodePerson(ts, pos)
      case None => None
      case Some((p, next)) =>
        match DecodePeopleItems(ts, next, n - 1)
        case None => None
        case Some((rest, end)) => Some(([p] + rest, end))
  }

  /** ReadEnumerable of persons. */
  function DecodePeople(ts: seq<Token>, pos: nat): Option<(seq<Person>, nat)> {
    if pos < |ts| && ts[pos].TCount? then DecodePeopleItems(ts, pos + 1, ts[pos].count) else None
  }

  /** Reading one more person after `k` of them extends the decoded prefix by that person. */
  lemma {:induction false} DecodePeopleItemsStep(ts: seq<Token>, pos: nat, k: nat)
    requires DecodePeopleItems(ts, pos, k).Some?
    ensures var (ps, next) := DecodePeopleItems(ts, pos, k).value;
      DecodePeopleItems(ts, pos, k + 1) ==
        match DecodePerson(ts, next)
        case None => None
        case Some((p, end)) => Some((ps + [p], end))
    decreases k
  {
    if k == 0 {
      assert DecodePeopleItems(ts, pos, 0) == Some(([], pos));
      match DecodePerson(ts, pos)
      case None =>
      case Some((p, end)) =>
        assert DecodePeopleItems(ts, end, 0) == Some(([], end));
        assert [p] + [] == [] + [p];
    } else {
      var (p0, n0) := DecodePerson(ts, pos).value;
      var (rest, _) := DecodePeopleItems(ts, n0, k - 1).value;
      DecodePeopleItemsStep(ts, n0, k - 1);
      match DecodePerson(ts, DecodePeopleItems(ts, pos, k).value.1)
      case None =>
      case Some((p, end)) =>
        assert [p0] + (rest + [p]) == ([p0] + rest) + [p];
    }
  }

  /** The `i`-th serialized person sits at tokens `3 * i` to `3 * i + 3`. */
  lemma {:induction false} EncodedAt(ps: seq<Person>, i: nat)
    requires i < |ps|
    ensures EncodePeopleItems(ps)[3 * i..3 * i + 3] == EncodePerson(ps[i])
    decreases i
  {
    var e := EncodePeopleItems(ps);
    assert e == EncodePerson(ps[0]) + EncodePeopleItems(ps[1..]);
    if i > 0 {
      EncodedAt(ps[1..], i - 1);
      assert e[3 * i..3 * i + 3] == EncodePeopleItems(ps[1..])[3 * (i - 1)..3 * (i - 1) + 3];
    }
  }

  /** Three tokens that are a serialized person decode as that person. */
  lemma DecodeAt(ts: seq<Token>, pos: nat, p: Person)
    requires pos + 3 <= |ts| && ts[pos..pos + 3] == EncodePerson(p)
    ensures DecodePerson(ts, pos) == Some((p, pos + 3))
  {
    assert ts[pos] == ts[pos..pos + 3][0];
    assert ts[pos + 1] == ts[pos..pos + 3][1];
    assert ts[pos + 2] == ts[pos..pos + 3][2];
  }

  /** `n` persons laid out one after another decode as those persons. */
  lemma {:induction false} DecodeItemsAt(ts: seq<Token>, pos: nat, ps: seq<Person>)
    requires forall i :: 0 <= i < |ps| ==> DecodePerson(ts, pos + 3 * i) == Some((ps[i], pos + 3 * i + 3))
    ensures DecodePeopleItems(ts, pos, |ps|) == Some((ps, pos + 3 * |ps|))
    decreases |ps|
  {
    if ps != [] {
      assert DecodePerson(ts, pos + 3 * 0) == Some((ps[0], pos + 3));
      forall i | 0 <= i < |ps| - 1
        ensures DecodePerson(ts, pos + 3 + 3 * i) == Some((ps[1..][i], pos + 3 + 3 * i + 3))
      {
        assert DecodePerson(ts, pos + 3 * (i + 1)) == Some((ps[i + 1], pos + 3 * (i + 1) + 3));
      }
      DecodeItemsAt(ts, pos + 3, ps[1..]);
      assert [ps[0]] + ps[1..] == ps;
    }
  }

  /** A slice of the middle part of a stream is that slice of the part. */
  lemma MiddleSlice(before: seq<Token>, e: seq<Token>, after: seq<Token>, a: nat, b: nat)
    requires a <= b <= |e|
    ensures (before + e + after)[|before| + a..|before| + b] == e[a..b]
  {
    var ts := before + e + after;
    var mid := ts[|before| + a..|before| + b];
    forall j | 0 <= j < b - a
      ensures mid[j] == e[a..b][j]
    {
      assert mid[j] == ts[|before| + a + j];
    }
  }

  lemma PeopleItemsRoundTrip(ps: seq<Person>, before: seq<Token>, after: seq<Token>)
    ensures DecodePeopleItems(before + EncodePeopleItems(ps) + after, |before|, |ps|)
         == Some((ps, |before| + 3 * |ps|))
  {
    var e := EncodePeopleItems(ps);
    var ts := before + e + after;
    forall i | 0 <= i < |ps|
      ensures DecodePerson(ts, |before| + 3 * i) == Some((ps[i], |before| + 3 * i + 3))
    {
      EncodedAt(ps, i);
      MiddleSlice(before, e, after, 3 * i, 3 * i + 3);
      DecodeAt(ts, |before| + 3 * i, ps[i]);
    }
    DecodeItemsAt(ts, |before|, ps);
  }

  /** Writing a list of persons and reading it back gives the same list, in order. */
  lemma PeopleRoundTrip(ps: seq<Person>, before: seq<Token>, after: seq<Token>)
    ensures DecodePeople(before + EncodePeople(ps) + after, |before|)
         == Some((ps, |before| + 1 + 3 * |ps|))
  {
    var ts := before + EncodePeople(ps) + after;
    assert ts == (before + [TCount(|ps|)]) + EncodePeopleItems(ps) + after;
    PeopleItemsRoundTrip(ps, before + [TCount(|ps|)], after);
  }

  /** A stream that holds `n` persons at `pos` holds any shorter run of them too. */
  lemma {:induction false} PeopleItemsPrefix(ts: seq<Token>, pos: nat, k: nat, n: nat)
    requires k <= n && DecodePeopleItems(ts, pos, n).Some?
    ensures DecodePeopleItems(ts, pos, k).Some?
    ensures DecodePeopleItems(ts, pos, k).value.0 == DecodePeopleItems(ts, pos, n).value.0[..k]
    decreases k
  {
    if k > 0 {
      var (p, next) := DecodePerson(ts, pos).value;
      PeopleItemsPrefix(ts, next, k - 1, n - 1);
      var rest := DecodePeopleItems(ts, next, n - 1).value.0;
      assert ([p] + rest)[..k] == [p] + rest[..k - 1];
    }
  }

  /** `new Person (context, reader)`: reads a person from the stream. */
  method ReadPerson(r: Reader) returns (p: Option<Person>)
    modifies r
    ensures DecodePerson(r.tokens, old(r.pos)) == None ==> p == None
    ensures DecodePerson(r.tokens, old(r.pos)) != None ==>
      var (q, next) := DecodePerson(r.tokens, old(r.pos)).value; p == Some(q) && r.pos == next
  {
    var id := r.ReadString();
    var nick := r.ReadString();
    var st := r.ReadByte();
    if id.Some? && id.value.Some? && nick.Some? && st.Some? {
      p := Some(Person(id.value.value, nick.value, st.value));
    } else {
      p := None;
    }
  }

  /** ReadEnumerable of persons: the count, then each person in turn; stops at the first
      token that does not fit. */
  method ReadPeople(r: Reader) returns (ps: Option<seq<Person>>)
    modifies r
    ensures ps.Some? <==> DecodePeople(r.tokens, old(r.pos)).Some?
    ensures ps.Some? ==> (ps.value, r.pos) == DecodePeople(r.tokens, old(r.pos)).value
  {
    ghost var start := r.pos;
    var count := r.ReadCount();
    if count.None? {
      return None;
    }
    var n := count.value;
    var items: seq<Person> := [];
    var i := 0;
    while i < n
      invariant 0 <= i <= n && r.pos >= start + 1
      invariant DecodePeopleItems(r.tokens, start + 1, i) == Some((items, r.pos))
    {
      DecodePeopleItemsStep(r.tokens, start + 1, i);
      var p := ReadPerson(r);
      if p.None? {
        if DecodePeopleItems(r.tokens, start + 1, n).Some? {
          PeopleItemsPrefix(r.tokens, start + 1, i + 1, n);
        }
        return None;
      }
      items := items + [p.value];
      i := i + 1;
    }
    ps := Some(items);
  }

  // ---------------------------------------------------------- live object

  /** A person as an object: Identity has a private setter, Nickname and Status raise
      PropertyChanged (recorded in `changed` by property name) only when the value changes. */
  class PersonObject {
    var identity: string
    var nickname: Option<string>
    var status: Byte
    var changed: seq<string>

    function Value(): Person
      reads this
    {
      Person(identity, nickname, status)
    }

    /** Wraps a person built by NewPerson or read from a stream. */
    constructor (p: Person)
      ensures Value() == p && changed == []
    {
      identity, nickname, status := p.identity, p.nickname, p.status;
      changed := [];
    }

    /** The Nickname setter. */
    method SetNickname(v: Option<string>)
      modifies this
      ensures identity == old(identity) && status == old(status) && nickname == v
      ensures old(nickname) == v ==> changed == old(changed)
      ensures old(nickname) != v ==> changed == old(changed) + ["Nickname"]
    {
      if nickname == v {
        return;
      }
      nickname := v;
      changed := changed + ["Nickname"];
    }

    /** The Status setter. */
    method SetStatus(v: Byte)
      modifies this
      ensures identity == old(identity) && nickname == old(nickname) && status == v
      ensures old(status) == v ==> changed == old(changed)
      ensures old(status) != v ==> changed == old(changed) + ["Status"]
    {
      if status == v {
        return;
      }
      status := v;
      changed := changed + ["Status"];
    }

    method Serialize(w: Writer)
      modifies w
      ensures w.tokens == old(w.tokens) + EncodePerson(Value())
    {
      WritePerson(w, Value());
    }

    /** Reads identity, then nickname and status through their setters, so a change of
        either raises its notification. The status byte is not checked against the enum. */
    method Deserialize(r: Reader) returns (ok: bool)
      modifies this, r
      ensures ok <==> DecodePerson(r.tokens, old(r.pos)).Some?
      ensures ok ==> var (p, next) := DecodePerson(r.tokens, old(r.pos)).value;
        Value() == p && r.pos == next &&
        changed == old(changed) + (if old(nickname) != p.nickname then ["Nickname"] else [])
                                + (if old(status) != p.status then ["Status"] else [])
    {
      var id := r.ReadString();
      if id.None? || id.value.None? {
        return false;
      }
      identity := id.value.value;
      var nick := r.ReadString();
      if nick.None? {
        return false;
      }
      SetNickname(nick.value);
      var st := r.ReadByte();
      if st.None? {
        return false;
      }
      SetStatus(st.value);
      ok := true;
    }
  }
}
