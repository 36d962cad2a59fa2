// Group and GroupSerializer (Desktop/Tempest.Social/Group.cs): a numbered group
// of participant identities, and its wire form: the id as an Int32, then the
// participants as a counted list of strings.

module Groups {
  import opened Common
  import opened Stream

  class Group {
    const id: Int32
    var participants: seq<string>

    /** `new Group (id)`: no participants yet. */
    constructor (id: Int32)
      ensures this.id == id && participants == []
    {
      this.id := id;
      participants := [];
    }

    /** `new Group (id, participants)` once the null check has passed: each participant
        is added in order. */
    constructor WithParticipants(id: Int32, ps: seq<string>)
      ensures this.id == id && participants == ps
    {
      this.id := id;
      participants := [];
      new;
      var i := 0;
      while i < |ps|
        invariant 0 <= i <= |ps| && participants == ps[..i]
      {
        assert ps[..i + 1] == ps[..i] + [ps[i]];
        participants := participants + [ps[i]];
        i := i + 1;
      }
      assert ps[..i] == ps;
    }
  }

  /** `new Group (id, participants)`, with its null check. */
  method NewGroup(id: Int32, participants: Option<seq<string>>) returns (r: Result<Group>)
    ensures participants.None? <==> r.Err?
    ensures r.Err? ==> r.error == ArgumentNull("participants")
    ensures r.Ok? ==> fresh(r.value) && r.value.id == id && r.value.participants == participants.value
  {
    if participants.None? {
      return Err(ArgumentNull("participants"));
    }
    var g := new Group.WithParticipants(id, participants.value);
    r := Ok(g);
  }

  // ----------------------------------------------------------------- codec

  /** WriteEnumerable of strings, after the count: one string token per participant. */
  function EncodeNames(ps: seq<string>): (r: seq<Token>)
    ensures |r| == |ps| && forall i :: 0 <= i < |ps| ==> r[i] == TString(Some(ps[i]))
  {
    seq(|ps|, i requires 0 <= i < |ps| => TString(Some(ps[i])))
  }

  /** GroupSerializer.Serialize. */
  function EncodeGroup(id: Int32, ps: seq<string>): (r: seq<Token>)
    ensures DecodeGroup(r, 0) == Some((id, ps, |r|))
  {
    var r := [TInt32(id), TCount(|ps|)] + EncodeNames(ps);
    assert NamesAt(r, 2, |ps|) && EncodeNames(ps) == r[2..2 + |ps|];
    assert DecodeNames(r, 2, |ps|).value == ps by {
      EncodeNamesInjective(DecodeNames(r, 2, |ps|).value, ps);
    }
    r
  }

  lemma EncodeNamesInjective(a: seq<string>, b: seq<string>)
    requires EncodeNames(a) == EncodeNames(b)
    ensures a == b
  {
    assert |a| == |b|;
    forall i | 0 <= i < |a| ensures a[i] == b[i] {
      assert EncodeNames(a)[i] == EncodeNames(b)[i];
    }
  }

  /** Whether the `n` tokens at `pos` are all non-null strings. */
  predicate NamesAt(ts: seq<Token>, pos: nat, n: nat) {
    pos + n <= |ts| && forall i :: pos <= i < pos + n ==> ts[i].TString? && ts[i].s.Some?
  }

  /** Reads `n` participant names at `pos`. A null name is not representable here. */
  function DecodeNames(ts: seq<Token>, pos: nat, n: nat): (r: Option<seq<string>>)
    ensures r.Some? <==> NamesAt(ts, pos, n)
    ensures r.Some? ==> EncodeNames(r.value) == ts[pos..pos + n]
  {
    if NamesAt(ts, pos, n)
    then Some(seq(n, i requires 0 <= i < n && NamesAt(ts, pos, n) => ts[pos + i].s.value))
    else None
  }

  /** GroupSerializer.Deserialize: the id, the participants and the position after them. */
  function DecodeGroup(ts: seq<Token>, pos: nat): (r: Option<(Int32, seq<string>, nat)>)
    ensures r.Some? ==> r.value.2 == pos + 2 + |r.value.1| <= |ts|
  {
    if pos + 1 < |ts| && ts[pos].TInt32? && ts[pos + 1].TCount? then
      match DecodeNames(ts, pos + 2, ts[pos + 1].count)
      case None => None
      case Some(ps) => Some((ts[pos].n, ps, pos + 2 + |ps|))
    else None
  }

  /** Whatever decodes is exactly the encoding of what it decoded. */
  lemma DecodeGroupInverse(ts: seq<Token>, pos: nat)
    requires DecodeGroup(ts, pos).Some?
    ensures var (id, ps, end) := DecodeGroup(ts, pos).value;
      ts[pos..end] == EncodeGroup(id, ps)
  {
    var (id, ps, end) := DecodeGroup(ts, pos).value;
    assert ts[pos..end] == ts[pos..pos + 2] + ts[pos + 2..end];
    assert ts[pos..pos + 2] == [TInt32(id), TCount(|ps|)];
  }

  /** A group written to a stream reads back as the same id and participants, whatever
      surrounds it. */
  lemma GroupRoundTrip(id: Int32, ps: seq<string>, before: seq<Token>, after: seq<Token>)
    ensures DecodeGroup(before + EncodeGroup(id, ps) + after, |before|) == Some((id, ps, |before| + 2 + |ps|))
  {
    var ts := before + EncodeGroup(id, ps) + after;
    var start := |before| + 2;
    forall i | start <= i < start + |ps|
      ensures ts[i] == TString(Some(ps[i - start]))
    {
      assert ts[i] == EncodeGroup(id, ps)[i - |before|];
    }
    assert ts[|before|] == TInt32(id) && ts[|before| + 1] == TCount(|ps|);
    var names := DecodeNames(ts, start, |ps|).value;
    assert names == ps;
  }

  /** Serialize (context, writer, group). */
  method SerializeGroup(w: Writer, g: Group)
    modifies w
    ensures w.tokens == old(w.tokens) + EncodeGroup(g.id, g.participants)
  {
    w.WriteInt32(g.id);
    w.WriteCount(|g.participants|);
    var i := 0;
    while i < |g.participants|
      invariant 0 <= i <= |g.participants|
      invariant w.tokens == old(w.tokens) + [TInt32(g.id), TCount(|g.participants|)] + EncodeNames(g.participants[..i])
    {
      assert EncodeNames(g.participants[..i + 1]) == EncodeNames(g.participants[..i]) + [TString(Some(g.participants[i]))];
      w.WriteString(Some(g.participants[i]));
      i := i + 1;
    }
    assert g.participants[..i] == g.participants;
  }

  /** Deserialize (context, reader): the id, then the names, then the new group. */
  method DeserializeGroup(r: Reader) returns (g: Option<Group>)
    modifies r
    ensures g.Some? <==> DecodeGroup(r.tokens, old(r.pos)).Some?
    ensures g.Some? ==> fresh(g.value)
    ensures g.Some? ==> (g.value.id, g.value.participants, r.pos) == DecodeGroup(r.tokens, old(r.pos)).value
  {
    ghost var start := r.pos;
    var id := r.ReadInt32();
    if id.None? {
      return None;
    }
    var count := r.ReadCount();
    if count.None? {
      return None;
    }
    var n := count.value;
    var names: seq<string> := [];
    var i := 0;
    while i < n
      invariant 0 <= i <= n && r.pos == start + 2 + i && NamesAt(r.tokens, start + 2, i)
      invariant names == DecodeNames(r.tokens, start + 2, i).value
    {
      var s := r.ReadString();
      if s.None? || s.value.None? {
        return None;
      }
      names := names + [s.value.value];
      i := i + 1;
    }
    var group := new Group.WithParticipants(id.value, names);
    g := Some(group);
  }
}
