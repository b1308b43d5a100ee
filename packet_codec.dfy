/** The standalone framer of packet/packet_codec.go: a type byte, a 24-bit
    big-endian payload length and the payload. The type is checked on
    encoding only. */
module PacketCodec {
  import opened Wire

  const HEAD_LENGTH: nat := 4

  const HANDSHAKE: byte := 0x01
  const HANDSHAKE_ACK: byte := 0x02
  const HEARTBEAT: byte := 0x03
  const DATA: byte := 0x04
  const KICK: byte := 0x05

  /** A nil `Data` and an empty one are the same here: both have length 0. */
  datatype Packet = Packet(Type: byte, Data: seq<byte>)

  datatype Error = ErrWrongPacketType

  /** The valid packet types are exactly 1..5. */
  function InvalidType(t: byte): (r: bool)
    ensures r <==> t < HANDSHAKE || t > KICK
  {
    t != HANDSHAKE && t != HANDSHAKE_ACK && t != HEARTBEAT && t != DATA && t != KICK
  }

  /** What `Encode` returns: the length field holds `len(Data)` cut to its
      low 24 bits. */
  function PacketBytes(p: Packet): Result<seq<byte>, Error>
  {
    if InvalidType(p.Type) then Err(ErrWrongPacketType)
    else Ok([p.Type] + Be24(|p.Data|) + p.Data)
  }

  /** What `Decode` returns: it panics when the header is short or the
      payload runs past the end, ignores whatever follows the payload, and
      never fails otherwise (its error result is always nil). */
  function PacketParse(d: seq<byte>): Decoded<Packet>
  {
    if |d| < HEAD_LENGTH then Panics
    else
      var length := Be24Value(d[1], d[2], d[3]);
      if length == 0 then Decoded(Packet(d[0], []))
      else if HEAD_LENGTH + length > |d| then Panics
      else Decoded(Packet(d[0], d[HEAD_LENGTH..HEAD_LENGTH + length]))
  }

  method Encode(p: Packet) returns (r: Result<seq<byte>, Error>)
    ensures r == PacketBytes(p)
  {
    if InvalidType(p.Type) {
      return Err(ErrWrongPacketType);
    }
    var length := |p.Data|;
    var buf := new byte[HEAD_LENGTH + length];
    buf[0] := p.Type;
    buf[1] := Low8(length / 0x1_0000);
    buf[2] := Low8(length / 0x100);
    buf[3] := Low8(length);
    forall i | HEAD_LENGTH <= i < buf.Length {
      buf[i] := p.Data[i - HEAD_LENGTH];
    }
    assert buf[..] == [p.Type] + Be24(length) + p.Data;
    r := Ok(buf[..]);
  }

  method Decode(d: seq<byte>) returns (r: Decoded<Packet>)
    ensures r == PacketParse(d)
  {
    if |d| < HEAD_LENGTH {
      return Panics;
    }
    var pType := d[0];
    var length := Be24Value(d[1], d[2], d[3]);
    var data: seq<byte> := [];
    if length > 0 {
      if HEAD_LENGTH + length > |d| {
        return Panics;
      }
      var a := new byte[length];
      forall i | 0 <= i < length {
        a[i] := d[HEAD_LENGTH + i];
      }
      data := a[..];
      assert data == d[HEAD_LENGTH..HEAD_LENGTH + length];
    }
    r := Decoded(Packet(pType, data));
  }

  /** `Encode` fails exactly for a type outside 1..5. */
  lemma EncodeError(p: Packet)
    ensures PacketBytes(p).Err? <==> InvalidType(p.Type)
  {
  }

  /** The header of an encoded packet: the type, then the payload length
      (below 2^24), then the payload from byte 4 on. */
  lemma {:induction false} EncodeLayout(p: Packet)
    requires !InvalidType(p.Type) && |p.Data| < LENGTH_MODULUS
    ensures var b := PacketBytes(p).value;
      && |b| == HEAD_LENGTH + |p.Data|
      && b[0] == p.Type
      && Be24Value(b[1], b[2], b[3]) == |p.Data|
      && b[HEAD_LENGTH..] == p.Data
  {
    var b := PacketBytes(p).value;
    assert b[1..HEAD_LENGTH] == Be24(|p.Data|);
    Be24RoundTrip(|p.Data|);
  }

  /** `Decode(Encode(p))`: the type comes back, and the payload cut to the
      length the header can express, so all of it below 2^24 bytes. */
  lemma {:induction false} RoundTrip(p: Packet)
    requires !InvalidType(p.Type)
    ensures PacketParse(PacketBytes(p).value) ==
      Decoded(Packet(p.Type, p.Data[..|p.Data| % LENGTH_MODULUS]))
    ensures |p.Data| < LENGTH_MODULUS ==> PacketParse(PacketBytes(p).value) == Decoded(p)
  {
    var b := PacketBytes(p).value;
    var n := |p.Data| % LENGTH_MODULUS;
    assert b[1..HEAD_LENGTH] == Be24(|p.Data|);
    Be24RoundTrip(|p.Data|);
    assert b[HEAD_LENGTH..HEAD_LENGTH + n] == p.Data[..n];
    if |p.Data| < LENGTH_MODULUS {
      assert p.Data[..n] == p.Data;
    }
  }

  /** Bytes after the payload do not change what `Decode` returns, and the
      type byte comes back whatever it is. */
  lemma TrailingBytes(d: seq<byte>, extra: seq<byte>)
    requires PacketParse(d).Decoded?
    ensures PacketParse(d + extra) == PacketParse(d)
    ensures PacketParse(d).value.Type == d[0]
  {
    var length := Be24Value(d[1], d[2], d[3]);
    if length > 0 {
      assert (d + extra)[HEAD_LENGTH..HEAD_LENGTH + length] == d[HEAD_LENGTH..HEAD_LENGTH + length];
    }
  }
}
