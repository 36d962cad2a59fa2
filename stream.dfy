// The value stream the codecs write to and read from. Tempest's IValueWriter
// and IValueReader encode values as bytes; this model keeps one typed token per
// written value, so a reader that meets a token of another kind (or the end of
// the stream) reports a failure instead of reinterpreting bytes.

module Stream {
  import opened Common

  /** A network endpoint, Tempest's `Target`: a host name and a port. */
  datatype Target = Target(hostname: string, port: Int32)

  /** One value written by an IValueWriter call. */
  datatype Token =
    | TByte(b: Byte)                // WriteByte
    | TBool(flag: bool)             // WriteBool
    | TInt32(n: Int32)              // WriteInt32
    | TString(s: Option<string>)    // WriteString (null strings are written too)
    | TCount(count: nat)            // the element count WriteEnumerable writes before the elements
    | TTarget(target: Target)       // Target.Serialize, whose own layout is not part of this model

  /** An IValueWriter: every write appends one token. */
  class Writer {
    var tokens: seq<Token>

    constructor ()
      ensures tokens == []
    {
      tokens := [];
    }

    method WriteByte(b: Byte)
      modifies this
      ensures tokens == old(tokens) + [TByte(b)]
    {
      tokens := tokens + [TByte(b)];
    }

    /** Writes `flag` and returns it, as IValueWriter.WriteBool does. */
    method WriteBool(flag: bool) returns (r: bool)
      modifies this
      ensures r == flag
      ensures tokens == old(tokens) + [TBool(flag)]
    {
      tokens := tokens + [TBool(flag)];
      r := flag;
    }

    method WriteInt32(n: Int32)
      modifies this
      ensures tokens == old(tokens) + [TInt32(n)]
    {
      tokens := tokens + [TInt32(n)];
    }

    method WriteString(s: Option<string>)
      modifies this
      ensures tokens == old(tokens) + [TString(s)]
    {
      tokens := tokens + [TString(s)];
    }

    method WriteCount(count: nat)
      modifies this
      ensures tokens == old(tokens) + [TCount(count)]
    {
      tokens := tokens + [TCount(count)];
    }

    method WriteTarget(t: Target)
      modifies this
      ensures tokens == old(tokens) + [TTarget(t)]
    {
      tokens := tokens + [TTarget(t)];
    }
  }

  /** An IValueReader over a finished token stream. Each read consumes one
      token of the expected kind, or fails and leaves the position alone. */
  class Reader {
    const tokens: seq<Token>
    var pos: nat

    constructor (ts: seq<Token>)
      ensures tokens == ts && pos == 0
    {
      tokens := ts;
      pos := 0;
    }

    method ReadByte() returns (r: Option<Byte>)
      modifies this
      ensures old(pos) < |tokens| && tokens[old(pos)].TByte? ==>
                r == Some(tokens[old(pos)].b) && pos == old(pos) + 1
      ensures !(old(pos) < |tokens| && tokens[old(pos)].TByte?) ==> r == None && pos == old(pos)
    {
      if pos < |tokens| && tokens[pos].TByte? {
        r := Some(tokens[pos].b);
        pos := pos + 1;
      } else {
        r := None;
      }
    }

    method ReadBool() returns (r: Option<bool>)
      modifies this
      ensures old(pos) < |tokens| && tokens[old(pos)].TBool? ==>
                r == Some(tokens[old(pos)].flag) && pos == old(pos) + 1
      ensures !(old(pos) < |tokens| && tokens[old(pos)].TBool?) ==> r == None && pos == old(pos)
    {
      if pos < |tokens| && tokens[pos].TBool? {
        r := Some(tokens[pos].flag);
        pos := pos + 1;
      } else {
        r := None;
      }
    }

    method ReadInt32() returns (r: Option<Int32>)
      modifies this
      ensures old(pos) < |tokens| && tokens[old(pos)].TInt32? ==>
                r == Some(tokens[old(pos)].n) && pos == old(pos) + 1
      ensures !(old(pos) < |tokens| && tokens[old(pos)].TInt32?) ==> r == None && pos == old(pos)
    {
      if pos < |tokens| && tokens[pos].TInt32? {
        r := Some(tokens[pos].n);
        pos := pos + 1;
      } else {
        r := None;
      }
    }

    /** The outer Option is the read's success; the inner one is the string, which may be null. */
    method ReadString() returns (r: Option<Option<string>>)
      modifies this
      ensures old(pos) < |tokens| && tokens[old(pos)].TString? ==>
                r == Some(tokens[old(pos)].s) && pos == old(pos) + 1
      ensures !(old(pos) < |tokens| && tokens[old(pos)].TString?) ==> r == None && pos == old(pos)
    {
      if pos < |tokens| && tokens[pos].TString? {
        r := Some(tokens[pos].s);
        pos := pos + 1;
      } else {
        r := None;
      }
    }

    method ReadCount() returns (r: Option<nat>)
      modifies this
      ensures old(pos) < |tokens| && tokens[old(pos)].TCount? ==>
                r == Some(tokens[old(pos)].count) && pos == old(pos) + 1
      ensures !(old(pos) < |tokens| && tokens[old(pos)].TCount?) ==> r == None && pos == old(pos)
    {
      if pos < |tokens| && tokens[pos].TCount? {
        r := Some(tokens[pos].count);
        pos := pos + 1;
      } else {
        r := None;
      }
    }

    /** `new Target (context, reader)`. */
    method ReadTarget() returns (r: Option<Target>)
      modifies this
      ensures old(pos) < |tokens| && tokens[old(pos)].TTarget? ==>
                r == Some(tokens[old(pos)].target) && pos == old(pos) + 1
      ensures !(old(pos) < |tokens| && tokens[old(pos)].TTarget?) ==> r == None && pos == old(pos)
    {
      if pos < |tokens| && tokens[pos].TTarget? {
        r := Some(tokens[pos].target);
        pos := pos + 1;
      } else {
        r := None;
      }
    }
  }
}
