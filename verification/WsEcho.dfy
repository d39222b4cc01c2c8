/** The echo upstream over a connection, and a whole conversation with it. */
module WsEcho {
  import opened Wrappers
  import opened WsFrames
  import opened WsCodec
  import opened Words

  lemma {:induction false} FromBigEndianBelow(bs: seq<Byte>)
    ensures FromBigEndian(bs) < Pow256(|bs|)
  {
    if bs != [] { FromBigEndianBelow(bs[..|bs| - 1]); }
  }

  lemma ParsedLengthBelow(len7: Byte, s: seq<Byte>)
    ensures ParseLength(len7, s).Got? ==> ParseLength(len7, s).value < U64
  {
    LengthBounds();
    if |s| >= 2 { FromBigEndianBelow(s[..2]); }
    if |s| >= 8 { FromBigEndianBelow(s[..8]); }
  }

  /** A frame that carries a payload has one of announceable length, shorter than its bytes. */
  lemma FrameFits(s: seq<Byte>)
    ensures ServerParse(s).Got? ==>
              && |ServerParse(s).rest| < |s|
              && var f := ServerParse(s).value;
                 f.Text? || f.Binary? || f.Ping? ==> |f.payload| < U64
  {
    hide FromBigEndian, Masked;
    ParseConsumes(s);
    if |s| >= 2 { ParsedLengthBelow(Low7(s[1]), s[2..]); }
  }

  /** What the server answers to the rest of its input. */
  function EchoOf(s: seq<Byte>): seq<Byte>
    decreases |s|
  {
    FrameFits(s);
    match ServerParse(s)
    case Ended => ServerFrame(8, [])
    case Failed => []
    case Got(Text(p), rest) => ServerFrame(1, p) + EchoOf(rest)
    case Got(Binary(p), rest) => ServerFrame(2, p) + EchoOf(rest)
    case Got(Ping(p), rest) => ServerFrame(10, p) + EchoOf(rest)
    case Got(Pong, rest) => EchoOf(rest)
    case Got(Close, rest) => ServerFrame(8, [])
  }

  class Connection {
    const input: seq<Byte>
    var pos: nat
    var output: seq<Byte>

    constructor (input: seq<Byte>)
      ensures Valid() && this.input == input && pos == 0 && output == []
    {
      this.input := input;
      pos, output := 0, [];
    }

    ghost predicate Valid()
      reads this
    {
      pos <= |input|
    }

    ghost function Rest(): seq<Byte>
      requires Valid()
      reads this
    {
      input[pos..]
    }

    /** Exactly `n` bytes, or none when the stream ends first. */
    method ReadExact(n: nat) returns (r: Option<seq<Byte>>)
      requires Valid()
      modifies this`pos
      ensures Valid()
      ensures if |old(Rest())| < n then r.None? else r == Some(old(Rest())[..n]) && Rest() == old(Rest())[n..]
    {
      if |input| - pos < n {
        pos := |input|;
        return None;
      }
      r := Some(input[pos..pos + n]);
      assert Rest()[..n] == input[pos..pos + n] && Rest()[n..] == input[pos + n..];
      pos := pos + n;
    }

    method ReadLength(len7: Byte) returns (r: Option<nat>)
      requires Valid()
      modifies this`pos
      ensures Valid()
      ensures var p := ParseLength(len7, old(Rest()));
              if p.Got? then r == Some(p.value) && Rest() == p.rest else r.None?
    {
      if len7 == 126 {
        var ext := ReadExact(2);
        return if ext.None? then None else Some(FromBigEndian(ext.value));
      } else if len7 == 127 {
        var ext := ReadExact(8);
        return if ext.None? then None else Some(FromBigEndian(ext.value));
      }
      r := Some(len7);
    }

    method ReadPayload(masked: bool, len: nat) returns (r: Option<seq<Byte>>)
      requires Valid()
      modifies this`pos
      ensures Valid()
      ensures var p := ParsePayload(masked, len, old(Rest()));
              if p.Got? then r == Some(p.value) && Rest() == p.rest else r.None?
    {
      ghost var s := Rest();
      var mask := [0, 0, 0, 0];
      if masked {
        var m := ReadExact(4);
        if m.None? {
          return None;
        }
        mask := m.value;
      }
      var bytes := ReadExact(len);
      if bytes.None? {
        return None;
      }
      if masked {
        var buffer := new Byte[len](i requires 0 <= i < len => bytes.value[i]);
        assert buffer[..] == bytes.value == s[4..4 + len] && Rest() == s[4 + len..];
        Unmask(buffer, mask);
        return Some(buffer[..]);
      }
      r := bytes;
    }

    method ReadFrame() returns (r: Parsed<Frame>)
      requires Valid()
      modifies this`pos
      ensures Valid()
      ensures r == ServerParse(old(Rest()))
      ensures r.Got? ==> Rest() == r.rest
    {
      hide ParseLength, ParsePayload;
      var head := ReadExact(2);
      if head.None? {
        return Ended;
      }
      var b0, b1 := head.value[0], head.value[1];
      var len := ReadLength(Low7(b1));
      if len.None? {
        return Failed;
      }
      if !HasTop(b0) {
        return Failed;
      }
      var payload := ReadPayload(HasTop(b1), len.value);
      if payload.None? {
        return Failed;
      }
      var f := FrameOf(Low4(b0), payload.value);
      r := if f.None? then Failed else Got(f.value, input[pos..]);
    }

    /** The client's reader, on its own end of a connection. */
    method ClientReadFrame() returns (r: Parsed<seq<Byte>>)
      requires Valid()
      modifies this`pos
      ensures Valid()
      ensures r == ClientParse(old(Rest()))
      ensures r.Got? ==> Rest() == r.rest
    {
      hide ParseLength, ParsePayload;
      var head := ReadExact(2);
      if head.None? {
        return Ended;
      }
      var b0, b1 := head.value[0], head.value[1];
      var len := ReadLength(Low7(b1));
      if len.None? {
        return Failed;
      }
      var payload := ReadPayload(HasTop(b1), len.value);
      if payload.None? {
        return Failed;
      }
      r := if Low4(b0) == 8 then Ended else Got(payload.value, input[pos..]);
    }

    method Write(opcode: Byte, payload: seq<Byte>)
      requires |payload| < U64
      modifies this`output
      ensures output == old(output) + ServerFrame(opcode, payload)
    {
      var bytes := ServerWriteFrame(opcode, payload);
      output := output + bytes;
    }

    /** Echo until a close frame, the end of the input, or an error. */
    method EchoLoop()
      requires Valid()
      modifies this
      ensures Valid() && output == old(output) + EchoOf(old(Rest()))
    {
      hide ServerParse, ServerFrame;
      var open := true;
      ghost var all := EchoOf(Rest());
      while open
        invariant Valid()
        invariant open ==> output + EchoOf(Rest()) == old(output) + all
        invariant !open ==> output == old(output) + all
        decreases open, |input| - pos
      {
        FrameFits(Rest());
        ghost var rest, before := Rest(), output;
        var f := ReadFrame();
        match f {
          case Ended => Write(8, []); open := false;
          case Failed => open := false;
          case Got(Text(p), _) => Write(1, p); assert before + (ServerFrame(1, p) + EchoOf(Rest())) == output + EchoOf(Rest());
          case Got(Binary(p), _) => Write(2, p); assert before + (ServerFrame(2, p) + EchoOf(Rest())) == output + EchoOf(Rest());
          case Got(Ping(p), _) => Write(10, p); assert before + (ServerFrame(10, p) + EchoOf(Rest())) == output + EchoOf(Rest());
          case Got(Pong, _) =>
          case Got(Close, _) => Write(8, []); open := false;
        }
      }
    }
  }

  // ---------------------------------------------------------------- a conversation

  /** What a client sends: an opcode, a payload and the mask drawn for it. */
  datatype Sent = Sent(opcode: Byte, payload: seq<Byte>, mask: seq<Byte>)

  ghost predicate Sendable(f: Sent) {
    f.opcode in {1, 2, 9, 10} && |f.payload| < U64 && |f.mask| == 4
  }

  function ClientBytes(fs: seq<Sent>): seq<Byte>
    requires forall i :: 0 <= i < |fs| ==> Sendable(fs[i])
  {
    if fs == [] then []
    else
      assert Sendable(fs[0]);
      ClientFrame(fs[0].opcode, fs[0].payload, fs[0].mask) + ClientBytes(fs[1..])
  }

  function ReplyTo(f: Sent): seq<seq<Byte>> {
    if f.opcode == 10 then [] else [f.payload]
  }

  /** The payloads that come back: every text, binary and ping, in order. */
  function Replies(fs: seq<Sent>): seq<seq<Byte>> {
    if fs == [] then []
    else ReplyTo(fs[0]) + Replies(fs[1..])
  }

  /** Everything the client reads until its reader reports the end; `clean` tells that it did. */
  function ClientReads(s: seq<Byte>): (r: (seq<seq<Byte>>, bool))
    decreases |s|
  {
    ParseConsumes(s);
    match ClientParse(s)
    case Ended => ([], true)
    case Failed => ([], false)
    case Got(p, rest) =>
      var (more, clean) := ClientReads(rest);
      ([p] + more, clean)
  }

  /** The server answers frame by frame, whatever follows. */
  lemma EchoOfOne(f: Sent, rest: seq<Byte>)
    requires Sendable(f)
    ensures EchoOf(ClientFrame(f.opcode, f.payload, f.mask) + rest) ==
            (if f.opcode == 10 then []
             else ServerFrame(if f.opcode == 9 then 10 else f.opcode, f.payload)) + EchoOf(rest)
  {
    hide ServerFrame, ClientFrame, ServerParse;
    ServerReadsClient(f.opcode, f.payload, f.mask, rest);
    assert [] + EchoOf(rest) == EchoOf(rest);
  }

  lemma OneExchange(f: Sent, tail: seq<Byte>)
    requires Sendable(f)
    ensures ClientReads(EchoOf(ClientFrame(f.opcode, f.payload, f.mask) + tail)) ==
            (ReplyTo(f) + ClientReads(EchoOf(tail)).0, ClientReads(EchoOf(tail)).1)
  {
    hide ServerFrame, ClientFrame, ServerParse, ClientParse, EchoOf, ClientReads;
    EchoOfOne(f, tail);
    if f.opcode == 10 {
      assert [] + EchoOf(tail) == EchoOf(tail);
      assert ReplyTo(f) + ClientReads(EchoOf(tail)).0 == ClientReads(EchoOf(tail)).0;
    } else {
      ReadsOne(if f.opcode == 9 then 10 else f.opcode, f.payload, EchoOf(tail));
    }
  }

  lemma {:induction false} ConversationEchoes(fs: seq<Sent>, rest: seq<Byte>)
    requires forall i :: 0 <= i < |fs| ==> Sendable(fs[i])
    ensures ClientReads(EchoOf(ClientBytes(fs) + rest)) ==
            (Replies(fs) + ClientReads(EchoOf(rest)).0, ClientReads(EchoOf(rest)).1)
  {
    hide ClientFrame, EchoOf, ClientReads, ReplyTo;
    if fs == [] {
      assert ClientBytes(fs) + rest == rest;
      assert Replies(fs) + ClientReads(EchoOf(rest)).0 == ClientReads(EchoOf(rest)).0;
    } else {
      var f, tail := fs[0], ClientBytes(fs[1..]) + rest;
      assert Sendable(f);
      ConversationEchoes(fs[1..], rest);
      assert ClientBytes(fs) + rest == ClientFrame(f.opcode, f.payload, f.mask) + tail;
      OneExchange(f, tail);
      assert ReplyTo(f) + (Replies(fs[1..]) + ClientReads(EchoOf(rest)).0)
          == (ReplyTo(f) + Replies(fs[1..])) + ClientReads(EchoOf(rest)).0;
    }
  }

  lemma ReadsOne(opcode: Byte, payload: seq<Byte>, rest: seq<Byte>)
    requires opcode < 16 && opcode != 8 && |payload| < U64
    ensures ClientReads(ServerFrame(opcode, payload) + rest) == ([payload] + ClientReads(rest).0, ClientReads(rest).1)
  {
    hide ServerFrame, ClientParse;
    ClientReadsServer(opcode, payload, rest);
  }

  /** Client write, server echo, client read: every payload comes back unchanged and in order, and
      the conversation ends cleanly, whether the client closes (with anything after) or just stops. */
  lemma EchoIsIdentity(fs: seq<Sent>, mask: seq<Byte>, after: seq<Byte>)
    requires (forall i :: 0 <= i < |fs| ==> Sendable(fs[i])) && |mask| == 4
    ensures ClientReads(EchoOf(ClientBytes(fs))) == (Replies(fs), true)
    ensures ClientReads(EchoOf(ClientBytes(fs) + (ClientFrame(8, [], mask) + after))) == (Replies(fs), true)
  {
    hide ServerFrame, ClientFrame, ServerParse, ClientParse, ClientReads, ClientBytes;
    var close := ClientFrame(8, [], mask) + after;
    ConversationEchoes(fs, []);
    ConversationEchoes(fs, close);
    assert ClientBytes(fs) + [] == ClientBytes(fs);
    ServerReadsClient(8, [], mask, after);
    EndIffNoHead([]);
    ReadsClose();
    assert Replies(fs) + [] == Replies(fs);
  }

  lemma ReadsClose()
    ensures ClientReads(ServerFrame(8, [])) == ([], true)
  {
    ClientReadsServer(8, [], []);
    assert ServerFrame(8, []) + [] == ServerFrame(8, []);
  }

  /** How a conversation ends: an end of input or a close frame is answered with an empty close frame,
      byte for byte, and an error with nothing. */
  lemma EchoEnds(s: seq<Byte>)
    ensures ServerParse(s) == Ended ==> EchoOf(s) == [0x88, 0x00]
    ensures ServerParse(s).Got? && ServerParse(s).value == Close ==> EchoOf(s) == [0x88, 0x00]
    ensures ServerParse(s) == Failed ==> EchoOf(s) == []
  {
    hide ServerParse;
    assert ServerFrame(8, []) == [0x88, 0x00];
  }
}
