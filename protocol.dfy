// The connection-brokering messages (Desktop/Tempest.Social/Protocol/): their
// constructors' checks and their payloads. Each message is an object whose
// ReadPayload overwrites its properties from a stream; a Target is written and
// read as one token (Target.Serialize and `new Target (context, reader)`).

module Protocol {
  import opened Common
  import opened Stream

  // ------------------------------------------------------ ConnectResultMessage

  /** ConnectResult, an enum derived from byte. */
  const FailedUnknown: Byte := 0
  const Success: Byte := 1
  const FailedNotFound: Byte := 2
  const FailedNotFollowing: Byte := 3
  const FailedRejected: Byte := 4

  /** WritePayload: the result byte, whether a target follows, then the target. */
  function EncodeConnectResult(result: Byte, target: Option<Target>): (r: seq<Token>)
    ensures DecodeConnectResult(r, 0) == Some((result, target, |r|))
  {
    [TByte(result), TBool(target.Some?)] + (if target.Some? then [TTarget(target.value)] else [])
  }

  /** ReadPayload as a function of the stream: the result, the target if the flag says
      one follows (None: the property is left as it was), and the position after. */
  function DecodeConnectResult(ts: seq<Token>, pos: nat): (r: Option<(Byte, Option<Target>, nat)>)
    ensures r.Some? ==> r.value.2 == pos + (if r.value.1.Some? then 3 else 2) <= |ts|
  {
    if pos + 1 < |ts| && ts[pos].TByte? && ts[pos + 1].TBool? then
      if !ts[pos + 1].flag then Some((ts[pos].b, None, pos + 2))
      else if pos + 2 < |ts| && ts[pos + 2].TTarget? then Some((ts[pos].b, Some(ts[pos + 2].target), pos + 3))
      else None
    else None
  }

  /** Whatever decodes is exactly the encoding of what it decoded. */
  lemma DecodeConnectResultInverse(ts: seq<Token>, pos: nat)
    requires DecodeConnectResult(ts, pos).Some?
    ensures var (result, target, end) := DecodeConnectResult(ts, pos).value;
      ts[pos..end] == EncodeConnectResult(result, target)
  {
    var (result, target, end) := DecodeConnectResult(ts, pos).value;
    var e := EncodeConnectResult(result, target);
    assert ts[pos..end][0] == e[0] && ts[pos..end][1] == e[1];
    if target.Some? {
      assert ts[pos..end][2] == e[2];
    }
  }

  lemma ConnectResultRoundTrip(result: Byte, target: Option<Target>, before: seq<Token>, after: seq<Token>)
    ensures var n := if target.Some? then 3 else 2;
      DecodeConnectResult(before + EncodeConnectResult(result, target) + after, |before|)
        == Some((result, target, |before| + n))
  {
    var ts := before + EncodeConnectResult(result, target) + after;
    assert ts[|before|] == TByte(result) && ts[|before| + 1] == TBool(target.Some?);
    if target.Some? {
      assert ts[|before| + 2] == TTarget(target.value);
    }
  }

  class ConnectResultMessage {
    var result: Byte
    var target: Option<Target>

    /** The parameterless constructor used before ReadPayload. */
    constructor ()
      ensures result == FailedUnknown && target == None
    {
      result := FailedUnknown;
      target := None;
    }

    constructor Of(result: Byte, target: Option<Target>)
      ensures this.result == result && this.target == target
    {
      this.result := result;
      this.target := target;
    }

    /** `new ConnectResultMessage (result, target)`: the result must be a defined
        ConnectResult, and a success must name its target. */
    static method Create(result: Byte, target: Option<Target>) returns (r: Result<ConnectResultMessage>)
      ensures result > FailedRejected ==> r == Err(ArgumentInvalid("result"))
      ensures result <= FailedRejected && result == Success && target.None? ==> r == Err(ArgumentNull("target"))
      ensures r.Ok? <==> result <= FailedRejected && (result == Success ==> target.Some?)
      ensures r.Ok? ==> fresh(r.value) && r.value.result == result && r.value.target == target
    {
      if result > FailedRejected {
        return Err(ArgumentInvalid("result"));
      }
      if result == Success && target.None? {
        return Err(ArgumentNull("target"));
      }
      var m := new ConnectResultMessage.Of(result, target);
      r := Ok(m);
    }

    method WritePayload(w: Writer)
      modifies w
      ensures w.tokens == old(w.tokens) + EncodeConnectResult(result, target)
    {
      w.WriteByte(result);
      var present := w.WriteBool(target.Some?);
      if present {
        w.WriteTarget(target.value);
      }
    }

    /** Reads the result byte unchecked, then the target only when the flag is set; a
        message whose flag is clear keeps whatever target it had. */
    method ReadPayload(r: Reader) returns (ok: bool)
      modifies this, r
      ensures ok <==> DecodeConnectResult(r.tokens, old(r.pos)).Some?
      ensures ok ==> result == DecodeConnectResult(r.tokens, old(r.pos)).value.0
      ensures ok ==> r.pos == DecodeConnectResult(r.tokens, old(r.pos)).value.2
      ensures ok ==> target == match DecodeConnectResult(r.tokens, old(r.pos)).value.1
                              case None => old(target)
                              case Some(t) => Some(t)
    {
      var b := r.ReadByte();
      if b.None? {
        return false;
      }
      result := b.value;
      var flag := r.ReadBool();
      if flag.None? {
        return false;
      }
      if flag.value {
        var t := r.ReadTarget();
        if t.None? {
          return false;
        }
        target := t;
      }
      ok := true;
    }
  }

  // --------------------------------------------------------- ConnectToMessage

  /** WritePayload: id (possibly null), the hosting flag, the target's host name and port. */
  function EncodeConnectTo(id: Option<string>, youreHosting: bool, target: Target): (r: seq<Token>)
    ensures DecodeConnectTo(r, 0) == Some((id, youreHosting, target, |r|))
  {
    [TString(id), TBool(youreHosting), TString(Some(target.hostname)), TInt32(target.port)]
  }

  /** ReadPayload as a function of the stream. A null host name is not representable. */
  function DecodeConnectTo(ts: seq<Token>, pos: nat): (r: Option<(Option<string>, bool, Target, nat)>)
    ensures r.Some? ==> r.value.3 == pos + 4 <= |ts|
  {
    if pos + 3 < |ts| && ts[pos].TString? && ts[pos + 1].TBool? && ts[pos + 2].TString?
      && ts[pos + 2].s.Some? && ts[pos + 3].TInt32?
    then Some((ts[pos].s, ts[pos + 1].flag, Target(ts[pos + 2].s.value, ts[pos + 3].n), pos + 4))
    else None
  }

  /** Whatever decodes is exactly the encoding of what it decoded. */
  lemma DecodeConnectToInverse(ts: seq<Token>, pos: nat)
    requires DecodeConnectTo(ts, pos).Some?
    ensures var (id, hosting, target, end) := DecodeConnectTo(ts, pos).value;
      ts[pos..end] == EncodeConnectTo(id, hosting, target)
  {
    var (id, hosting, target, end) := DecodeConnectTo(ts, pos).value;
    var e := EncodeConnectTo(id, hosting, target);
    assert ts[pos..end][0] == e[0] && ts[pos..end][1] == e[1];
    assert ts[pos..end][2] == e[2] && ts[pos..end][3] == e[3];
  }

  lemma ConnectToRoundTrip(id: Option<string>, youreHosting: bool, target: Target, before: seq<Token>, after: seq<Token>)
    ensures DecodeConnectTo(before + EncodeConnectTo(id, youreHosting, target) + after, |before|)
      == Some((id, youreHosting, target, |before| + 4))
  {
    var ts := before + EncodeConnectTo(id, youreHosting, target) + after;
    assert ts[|before|..|before| + 4] == EncodeConnectTo(id, youreHosting, target);
    assert ts[|before|] == TString(id) && ts[|before| + 1] == TBool(youreHosting);
    assert ts[|before| + 2] == TString(Some(target.hostname)) && ts[|before| + 3] == TInt32(target.port);
  }

  class ConnectToMessage {
    var id: Option<string>
    var youreHosting: bool
    var target: Option<Target>

    constructor ()
      ensures id == None && !youreHosting && target == None
    {
      id, youreHosting, target := None, false, None;
    }

    constructor Of(id: string, youreHosting: bool, target: Target)
      ensures this.id == Some(id) && this.youreHosting == youreHosting && this.target == Some(target)
    {
      this.id, this.youreHosting, this.target := Some(id), youreHosting, Some(target);
    }

    /** `new ConnectToMessage (id, youreHosting, target)`: neither id nor target may be null. */
    static method Create(id: Option<string>, youreHosting: bool, target: Option<Target>) returns (r: Result<ConnectToMessage>)
      ensures id.None? ==> r == Err(ArgumentNull("id"))
      ensures id.Some? && target.None? ==> r == Err(ArgumentNull("target"))
      ensures r.Ok? <==> id.Some? && target.Some?
      ensures r.Ok? ==> fresh(r.value) && r.value.id == id && r.value.youreHosting == youreHosting && r.value.target == target
    {
      if id.None? {
        return Err(ArgumentNull("id"));
      }
      if target.None? {
        return Err(ArgumentNull("target"));
      }
      var m := new ConnectToMessage.Of(id.value, youreHosting, target.value);
      r := Ok(m);
    }

    /** Writes the payload; without a target the id and flag are already out when the
        access to the target's host name throws. */
    method WritePayload(w: Writer) returns (r: Outcome)
      modifies w
      ensures r == Pass <==> target.Some?
      ensures target.Some? ==> w.tokens == old(w.tokens) + EncodeConnectTo(id, youreHosting, target.value)
      ensures target.None? ==> r == Fail(NullReference) && w.tokens == old(w.tokens) + [TString(id), TBool(youreHosting)]
    {
      w.WriteString(id);
      var _ := w.WriteBool(youreHosting);
      if target.None? {
        return Fail(NullReference);
      }
      w.WriteString(Some(target.value.hostname));
      w.WriteInt32(target.value.port);
      r := Pass;
    }

    method ReadPayload(r: Reader) returns (ok: bool)
      modifies this, r
      ensures ok <==> DecodeConnectTo(r.tokens, old(r.pos)).Some?
      ensures ok ==> target.Some?
      ensures ok ==> (id, youreHosting, target.value, r.pos) == DecodeConnectTo(r.tokens, old(r.pos)).value
    {
      var s := r.ReadString();
      if s.None? {
        return false;
      }
      id := s.value;
      var flag := r.ReadBool();
      if flag.None? {
        return false;
      }
      youreHosting := flag.value;
      var host := r.ReadString();
      if host.None? || host.value.None? {
        return false;
      }
      var port := r.ReadInt32();
      if port.None? {
        return false;
      }
      target := Some(Target(host.value.value, port.value));
      ok := true;
    }
  }

  // --------------------------------------------------- GroupConnectionMessage

  /** GroupCommunicationType, an enum derived from byte. */
  const Host: Byte := 1
  const P2P: Byte := 2

  /** WritePayload: the type byte, then the host only for Host. */
  function EncodeGroupConnection(kind: Byte, host: Option<Target>): (r: seq<Token>)
    requires kind == Host ==> host.Some?
    ensures DecodeGroupConnection(r, 0) == Some((kind, if kind == Host then host else None, |r|))
  {
    [TByte(kind)] + (if kind == Host then [TTarget(host.value)] else [])
  }

  /** ReadPayload as a function of the stream: the type, the host if the type is Host
      (None: the property is left as it was), and the position after. */
  function DecodeGroupConnection(ts: seq<Token>, pos: nat): (r: Option<(Byte, Option<Target>, nat)>)
    ensures r.Some? ==> (r.value.0 == Host <==> r.value.1.Some?)
    ensures r.Some? ==> r.value.2 == pos + (if r.value.0 == Host then 2 else 1) <= |ts|
  {
    if pos < |ts| && ts[pos].TByte? then
      if ts[pos].b != Host then Some((ts[pos].b, None, pos + 1))
      else if pos + 1 < |ts| && ts[pos + 1].TTarget? then Some((Host, Some(ts[pos + 1].target), pos + 2))
      else None
    else None
  }

  /** Whatever decodes is exactly the encoding of what it decoded. */
  lemma DecodeGroupConnectionInverse(ts: seq<Token>, pos: nat)
    requires DecodeGroupConnection(ts, pos).Some?
    ensures var (kind, host, end) := DecodeGroupConnection(ts, pos).value;
      ts[pos..end] == EncodeGroupConnection(kind, host)
  {
    var (kind, host, end) := DecodeGroupConnection(ts, pos).value;
    var e := EncodeGroupConnection(kind, host);
    assert ts[pos..end][0] == e[0];
    if kind == Host {
      assert ts[pos..end][1] == e[1];
    }
  }

  lemma GroupConnectionRoundTrip(kind: Byte, host: Option<Target>, before: seq<Token>, after: seq<Token>)
    requires kind == Host ==> host.Some?
    ensures var n := if kind == Host then 2 else 1;
      DecodeGroupConnection(before + EncodeGroupConnection(kind, host) + after, |before|)
        == Some((kind, if kind == Host then host else None, |before| + n))
  {
    var ts := before + EncodeGroupConnection(kind, host) + after;
    assert ts[|before|] == TByte(kind);
    if kind == Host {
      assert ts[|before| + 1] == TTarget(host.value);
    }
  }

  class GroupConnectionMessage {
    var kind: Byte
    var host: Option<Target>

    constructor ()
      ensures kind == 0 && host == None
    {
      kind, host := 0, None;
    }

    /** Writes the payload; a Host message without a host throws after the type byte. */
    method WritePayload(w: Writer) returns (r: Outcome)
      modifies w
      ensures r == Pass <==> (kind == Host ==> host.Some?)
      ensures r == Pass ==> w.tokens == old(w.tokens) + EncodeGroupConnection(kind, host)
      ensures r != Pass ==> r == Fail(NullReference) && w.tokens == old(w.tokens) + [TByte(kind)]
    {
      w.WriteByte(kind);
      if kind == Host {
        if host.None? {
          return Fail(NullReference);
        }
        w.WriteTarget(host.value);
      }
      r := Pass;
    }

    /** Reads the type unchecked, and the host only for Host; any other type keeps
        whatever host the message had. */
    method ReadPayload(r: Reader) returns (ok: bool)
      modifies this, r
      ensures ok <==> DecodeGroupConnection(r.tokens, old(r.pos)).Some?
      ensures ok ==> kind == DecodeGroupConnection(r.tokens, old(r.pos)).value.0
      ensures ok ==> r.pos == DecodeGroupConnection(r.tokens, old(r.pos)).value.2
      ensures ok ==> host == match DecodeGroupConnection(r.tokens, old(r.pos)).value.1
                            case None => old(host)
                            case Some(t) => Some(t)
    {
      var b := r.ReadByte();
      if b.None? {
        return false;
      }
      kind := b.value;
      if kind == Host {
        var t := r.ReadTarget();
        if t.None? {
          return false;
        }
        host := t;
      }
      ok := true;
    }
  }
}
