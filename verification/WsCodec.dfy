/** The two frame writers and the two frame readers, and what they make of each other's bytes. */
module WsCodec {
  import opened Wrappers
  import opened WsFrames
  import opened Words

  // ---------------------------------------------------------------- the wire format

  /** The length byte and its extension; `top` is the mask bit. */
  function LengthField(len: nat, top: Byte): seq<Byte>
    requires len < U64 && (top == 0 || top == 128)
  {
    if len < 126 then [top + len]
    else if len <= 65535 then [top + 126] + BigEndian(len, 2)
    else [top + 127] + BigEndian(len, 8)
  }

  function ClientFrame(opcode: Byte, payload: seq<Byte>, mask: seq<Byte>): seq<Byte>
    requires |payload| < U64 && |mask| == 4
  {
    [SetTop(opcode)] + LengthField(|payload|, 128) + mask + Masked(payload, mask)
  }

  function ServerFrame(opcode: Byte, payload: seq<Byte>): seq<Byte>
    requires |payload| < U64
  {
    [SetTop(opcode)] + LengthField(|payload|, 0) + payload
  }

  method ClientWriteFrame(opcode: Byte, payload: seq<Byte>, mask: seq<Byte>) returns (out: seq<Byte>)
    requires |payload| < U64 && |mask| == 4
    ensures out == ClientFrame(opcode, payload, mask)
  {
    var head: seq<Byte> := [SetTop(opcode)];
    var len := |payload|;
    if len < 126 {
      head := head + [SetTop(len)];
    } else if len <= 65535 {
      head := head + [SetTop(126)];
      head := head + BigEndian(len, 2);
    } else {
      head := head + [SetTop(127)];
      head := head + BigEndian(len, 8);
    }
    assert head == [SetTop(opcode)] + LengthField(len, 128);
    head := head + mask;
    out := head + Masked(payload, mask);
  }

  method ServerWriteFrame(opcode: Byte, payload: seq<Byte>) returns (out: seq<Byte>)
    requires |payload| < U64
    ensures out == ServerFrame(opcode, payload)
  {
    var head: seq<Byte> := [SetTop(opcode)];
    var len := |payload|;
    if len < 126 {
      head := head + [len];
    } else if len <= 65535 {
      head := head + [126];
      head := head + BigEndian(len, 2);
    } else {
      head := head + [127];
      head := head + BigEndian(len, 8);
    }
    assert head == [SetTop(opcode)] + LengthField(len, 0);
    out := head + payload;
  }

  // ---------------------------------------------------------------- reading

  /** `Ended` is the readers' "no more frames", `Failed` an I/O or protocol error. */
  datatype Parsed<+T> = Ended | Failed | Got(value: T, rest: seq<Byte>)

  datatype Frame = Text(payload: seq<Byte>) | Binary(payload: seq<Byte>) | Ping(payload: seq<Byte>) | Pong | Close

  /** The payload length announced after the first two bytes. */
  function ParseLength(len7: Byte, s: seq<Byte>): Parsed<nat> {
    if len7 == 126 then (if |s| < 2 then Failed else Got(FromBigEndian(s[..2]), s[2..]))
    else if len7 == 127 then (if |s| < 8 then Failed else Got(FromBigEndian(s[..8]), s[8..]))
    else Got(len7, s)
  }

  /** The payload, unmasked if the mask bit was set. */
  function ParsePayload(masked: bool, len: nat, s: seq<Byte>): Parsed<seq<Byte>> {
    if masked then
      if |s| < 4 then Failed
      else if |s| - 4 < len then Failed
      else Got(Masked(s[4..4 + len], s[..4]), s[4 + len..])
    else if |s| < len then Failed
    else Got(s[..len], s[len..])
  }

  function FrameOf(opcode: Byte, payload: seq<Byte>): Option<Frame> {
    if opcode == 1 then Some(Text(payload))
    else if opcode == 2 then Some(Binary(payload))
    else if opcode == 8 then Some(Close)
    else if opcode == 9 then Some(Ping(payload))
    else if opcode == 10 then Some(Pong)
    else None
  }

  /** The opcodes the server knows, and what it makes of them. */
  lemma KnownOpcodes(opcode: Byte, payload: seq<Byte>)
    ensures FrameOf(opcode, payload).Some? <==> opcode in {1, 2, 8, 9, 10}
    ensures FrameOf(1, payload) == Some(Text(payload)) && FrameOf(2, payload) == Some(Binary(payload))
    ensures FrameOf(8, payload) == Some(Close) && FrameOf(9, payload) == Some(Ping(payload))
    ensures FrameOf(10, payload) == Some(Pong)
  {
  }

  function ServerParse(s: seq<Byte>): Parsed<Frame> {
    if |s| < 2 then Ended
    else
      match ParseLength(Low7(s[1]), s[2..])
      case Got(len, body) =>
        if !HasTop(s[0]) then Failed
        else
          (match ParsePayload(HasTop(s[1]), len, body)
           case Got(payload, rest) =>
             var f := FrameOf(Low4(s[0]), payload);
             if f.None? then Failed else Got(f.value, rest)
           case _ => Failed)
      case _ => Failed
  }

  function ClientParse(s: seq<Byte>): Parsed<seq<Byte>> {
    if |s| < 2 then Ended
    else
      match ParseLength(Low7(s[1]), s[2..])
      case Got(len, body) =>
        (match ParsePayload(HasTop(s[1]), len, body)
         case Got(payload, rest) => if Low4(s[0]) == 8 then Ended else Got(payload, rest)
         case _ => Failed)
      case _ => Failed
  }

  // ---------------------------------------------------------------- the readers undo the writers

  /** A number in network byte order is read off the front of what follows. */
  lemma NumberRoundTrip(len: nat, width: nat, rest: seq<Byte>)
    requires (width == 2 && len <= 65535) || (width == 8 && len < U64)
    ensures var s := BigEndian(len, width) + rest;
            |s| >= width && FromBigEndian(s[..width]) == len && s[width..] == rest
  {
    hide BigEndian, FromBigEndian;
    LengthBounds();
    BigEndianRoundTrip(len, width);
    var s := BigEndian(len, width) + rest;
    assert s[..width] == BigEndian(len, width) && s[width..] == rest;
  }

  lemma LengthByte(top: Byte, x: Byte)
    requires (top == 0 || top == 128) && x < 128
    ensures top + x < 256 && (HasTop(top + x) <==> top == 128) && Low7(top + x) == x
  {
  }

  /** The two longer forms: a marker, and the number in two or eight bytes. */
  lemma LongForm(len: nat, width: nat, rest: seq<Byte>)
    requires (width == 2 && len <= 65535) || (width == 8 && len < U64)
    ensures ParseLength(if width == 2 then 126 else 127, BigEndian(len, width) + rest) == Got(len, rest)
  {
    hide BigEndian, FromBigEndian;
    NumberRoundTrip(len, width, rest);
  }

  lemma LengthRoundTrip(len: nat, top: Byte, rest: seq<Byte>)
    requires len < U64 && (top == 0 || top == 128)
    ensures var f := LengthField(len, top);
            && f != [] && (HasTop(f[0]) <==> top == 128)
            && ParseLength(Low7(f[0]), f[1..] + rest) == Got(len, rest)
  {
    hide BigEndian, FromBigEndian, HasTop, Low7;
    var f := LengthField(len, top);
    if len < 126 {
      LengthByte(top, len);
      assert f[1..] + rest == rest;
    } else {
      hide ParseLength;
      var width, marker: Byte := if len <= 65535 then 2 else 8, if len <= 65535 then 126 else 127;
      LengthByte(top, marker);
      LongForm(len, width, rest);
      assert f == [top + marker] + BigEndian(len, width) && f[1..] == BigEndian(len, width);
    }
  }

  lemma PayloadRoundTrip(payload: seq<Byte>, mask: seq<Byte>, rest: seq<Byte>)
    requires |mask| == 4
    ensures ParsePayload(true, |payload|, mask + Masked(payload, mask) + rest) == Got(payload, rest)
    ensures ParsePayload(false, |payload|, payload + rest) == Got(payload, rest)
  {
    hide Xor, Masked;
    var s := mask + Masked(payload, mask) + rest;
    assert s[..4] == mask && s[4..4 + |payload|] == Masked(payload, mask) && s[4 + |payload|..] == rest;
    MaskedTwice(payload, mask);
    var t := payload + rest;
    assert t[..|payload|] == payload && t[|payload|..] == rest;
  }

  lemma SplitFrame(b0: Byte, field: seq<Byte>, tail: seq<Byte>)
    requires field != []
    ensures var s := [b0] + field + tail;
            |s| >= 2 && s[0] == b0 && s[1] == field[0] && s[2..] == field[1..] + tail
  {
  }

  /** A client frame, whatever the mask and whatever follows, is read back by the server as the same
      frame with the following bytes left over; an opcode it does not know is an error. */
  lemma ServerReadsClient(opcode: Byte, payload: seq<Byte>, mask: seq<Byte>, rest: seq<Byte>)
    requires opcode < 16 && |payload| < U64 && |mask| == 4
    ensures ServerParse(ClientFrame(opcode, payload, mask) + rest) ==
            if FrameOf(opcode, payload).Some? then Got(FrameOf(opcode, payload).value, rest) else Failed
  {
    hide LengthField, ParseLength, ParsePayload, Masked;
    var field, body := LengthField(|payload|, 128), mask + Masked(payload, mask) + rest;
    LengthRoundTrip(|payload|, 128, body);
    PayloadRoundTrip(payload, mask, rest);
    SplitFrame(SetTop(opcode), field, body);
    assert ClientFrame(opcode, payload, mask) + rest == [SetTop(opcode)] + field + body;
  }

  /** And a server frame by the client: its payload, or the end for a close frame. */
  lemma ClientReadsServer(opcode: Byte, payload: seq<Byte>, rest: seq<Byte>)
    requires opcode < 16 && |payload| < U64
    ensures ClientParse(ServerFrame(opcode, payload) + rest) == if opcode == 8 then Ended else Got(payload, rest)
  {
    hide LengthField, ParseLength, ParsePayload;
    var field, body := LengthField(|payload|, 0), payload + rest;
    LengthRoundTrip(|payload|, 0, body);
    PayloadRoundTrip(payload, [0, 0, 0, 0], rest);
    SplitFrame(SetTop(opcode), field, body);
    assert ServerFrame(opcode, payload) + rest == [SetTop(opcode)] + field + body;
  }

  /** The bytes of the extended length field. */
  function Extended(len7: Byte): nat {
    if len7 == 126 then 2 else if len7 == 127 then 8 else 0
  }

  /** The head announces no more bytes than there are. */
  predicate Complete(s: seq<Byte>)
    requires |s| >= 2
  {
    var ext, key := Extended(Low7(s[1])), if HasTop(s[1]) then 4 else 0;
    && 2 + ext <= |s|
    && var len := if ext == 0 then Low7(s[1]) else FromBigEndian(s[2..2 + ext]);
       2 + ext + key + len <= |s|
  }

  /** The server's reader reports a clean end whenever fewer than two bytes are left: a head cut after
      its first byte is not told apart from the end of the stream.  Anything else cut short is an
      error, and so are a fragment and an unknown opcode. */
  lemma EndIffNoHead(s: seq<Byte>)
    ensures ServerParse(s) == Ended <==> |s| < 2
    ensures ServerParse(s) == Failed <==>
            |s| >= 2 && (!Complete(s) || !HasTop(s[0]) || FrameOf(Low4(s[0]), []).None?)
  {
    hide FromBigEndian, Masked;
    if |s| >= 2 { HeadSlices(s); }
  }

  /** The client's reader ends there too, and on a close frame that is all there; it fails exactly on a
      frame cut short after its first two bytes. */
  lemma ClientEndIffNoHeadOrClose(s: seq<Byte>)
    ensures ClientParse(s) == Ended <==> |s| < 2 || (Complete(s) && Low4(s[0]) == 8)
    ensures ClientParse(s) == Failed <==> |s| >= 2 && !Complete(s)
  {
    hide FromBigEndian, Masked;
    if |s| >= 2 { HeadSlices(s); }
  }

  lemma HeadSlices(s: seq<Byte>)
    requires |s| >= 2
    ensures forall n: nat :: n <= |s| - 2 ==> s[2..][..n] == s[2..2 + n]
  {
  }

  lemma ParseConsumes(s: seq<Byte>)
    ensures ServerParse(s).Got? ==> |ServerParse(s).rest| < |s|
    ensures ClientParse(s).Got? ==> |ClientParse(s).rest| < |s|
    ensures ServerParse(s).Got? && ServerParse(s).value.Text? ==> |ServerParse(s).value.payload| < |s|
    ensures ServerParse(s).Got? && ServerParse(s).value.Binary? ==> |ServerParse(s).value.payload| < |s|
    ensures ServerParse(s).Got? && ServerParse(s).value.Ping? ==> |ServerParse(s).value.payload| < |s|
  {
    hide FromBigEndian, Masked;
  }

  /** The head of a frame on the wire, byte by byte, in the three length forms: the final bit and the
      opcode, then the mask bit and the length, the longer ones in two or eight bytes, most significant
      first. */
  lemma HeadOnTheWire(opcode: Byte, payload: seq<Byte>, mask: seq<Byte>)
    requires opcode < 16 && |payload| < U64 && |mask| == 4
    ensures var n := |payload|;
            && ClientFrame(opcode, payload, mask)[0] == 128 + opcode
            && ServerFrame(opcode, payload)[0] == 128 + opcode
            && ClientFrame(opcode, payload, mask) == [128 + opcode] + LengthOnTheWire(n, 128) + mask + Masked(payload, mask)
            && ServerFrame(opcode, payload) == [128 + opcode] + LengthOnTheWire(n, 0) + payload
  {
    hide Masked;
    LengthOnTheWireIs(|payload|, 0);
    LengthOnTheWireIs(|payload|, 128);
  }

  function LengthOnTheWire(n: nat, top: Byte): (r: seq<Byte>)
    requires n < U64 && (top == 0 || top == 128)
  {
    if n <= 125 then [top + n]
    else if n <= 0xFFFF then [top + 126, ByteAt(n, 0x100), ByteAt(n, 1)]
    else [top + 127, ByteAt(n, 0x100_0000_0000_0000), ByteAt(n, 0x1_0000_0000_0000), ByteAt(n, 0x100_0000_0000),
          ByteAt(n, 0x1_0000_0000), ByteAt(n, 0x100_0000), ByteAt(n, 0x1_0000), ByteAt(n, 0x100), ByteAt(n, 1)]
  }

  /** The byte of `n` at the place worth `p`. */
  function ByteAt(n: nat, p: nat): Byte
    requires p > 0
  {
    n / p % 0x100
  }

  lemma SmallPowers()
    ensures Pow256(0) == 1 && Pow256(1) == 0x100 && Pow256(2) == 0x1_0000 && Pow256(3) == 0x100_0000
    ensures Pow256(4) == 0x1_0000_0000 && Pow256(5) == 0x100_0000_0000 && Pow256(6) == 0x1_0000_0000_0000
    ensures Pow256(7) == 0x100_0000_0000_0000
  {
    assert Pow256(1) == 256 * Pow256(0);
    assert Pow256(2) == 256 * Pow256(1);
    assert Pow256(3) == 256 * Pow256(2);
    assert Pow256(4) == 256 * Pow256(3);
    assert Pow256(5) == 256 * Pow256(4);
    assert Pow256(6) == 256 * Pow256(5);
    assert Pow256(7) == 256 * Pow256(6);
  }

  lemma TwoBytes(n: nat)
    requires n <= 0xFFFF
    ensures BigEndian(n, 2) == [ByteAt(n, 0x100), ByteAt(n, 1)]
  {
    hide BigEndian, Pow256;
    SmallPowers();
    BigEndianBytes(n, 2, 0);
    BigEndianBytes(n, 2, 1);
  }

  lemma ByteOf(n: nat, i: nat, p: nat)
    requires i < 8 && p == Pow256(7 - i)
    ensures BigEndian(n, 8)[i] == ByteAt(n, p)
  {
    hide BigEndian, Pow256;
    BigEndianBytes(n, 8, i);
  }

  lemma EightBytes(n: nat)
    requires n < U64
    ensures BigEndian(n, 8) ==
            [ByteAt(n, 0x100_0000_0000_0000), ByteAt(n, 0x1_0000_0000_0000), ByteAt(n, 0x100_0000_0000),
             ByteAt(n, 0x1_0000_0000), ByteAt(n, 0x100_0000), ByteAt(n, 0x1_0000), ByteAt(n, 0x100), ByteAt(n, 1)]
  {
    hide BigEndian, Pow256, ByteAt;
    SmallPowers();
    ByteOf(n, 0, 0x100_0000_0000_0000);
    ByteOf(n, 1, 0x1_0000_0000_0000);
    ByteOf(n, 2, 0x100_0000_0000);
    ByteOf(n, 3, 0x1_0000_0000);
    ByteOf(n, 4, 0x100_0000);
    ByteOf(n, 5, 0x1_0000);
    ByteOf(n, 6, 0x100);
    ByteOf(n, 7, 1);
  }

  lemma LengthOnTheWireIs(n: nat, top: Byte)
    requires n < U64 && (top == 0 || top == 128)
    ensures LengthField(n, top) == LengthOnTheWire(n, top)
  {
    hide BigEndian, ByteAt;
    if 126 <= n <= 0xFFFF {
      TwoBytes(n);
    } else if n > 0xFFFF {
      EightBytes(n);
    }
  }
}
