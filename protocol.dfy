/** The combined codec of protocol.go: a `Package` framed by a 4-byte header
    around an optional `Message`. `MsgEncode` sizes the buffer exactly and then
    fills it at a moving offset with small writers; `MsgDecode` walks the
    buffer with an offset. In this variant a "compressed route" is the
    caller's first two route bytes, carried verbatim, and the gzip flag is
    only a bit: the body is copied raw both ways. */
module Protocol {
  import opened Wire
  import Varint

  const PKG_HEAD_BYTES: nat := 4

  const MSG_TYPE_REQUEST: byte := 0
  const MSG_TYPE_NOTIFY: byte := 1
  const MSG_TYPE_RESPONSE: byte := 2
  const MSG_TYPE_PUSH: byte := 3

  const MSG_FLAG_BYTES: nat := 1
  const MSG_ROUTE_CODE_BYTES: nat := 2
  const MSG_ROUTE_LEN_BYTES: nat := 1

  datatype Message = Message(
    MsgId: uint64,
    MsgType: byte,
    CompressRoute: bool,
    CompressGzip: bool,
    Route: seq<byte>,
    MsgBody: seq<byte>)

  /** `Msg == None` is Go's nil message pointer. */
  datatype Package = Package(PkgType: byte, Msg: Option<Message>)

  /** Of the four message types, the two even ones carry an id. */
  function MsgHasId(msgType: byte): (r: bool)
    ensures r <==> msgType < 4 && msgType % 2 == 0
  {
    msgType == MSG_TYPE_REQUEST || msgType == MSG_TYPE_RESPONSE
  }

  /** Every message type but a response carries a route, so each of the
      four carries an id or a route. */
  function MsgHasRoute(msgType: byte): (r: bool)
    ensures r <==> msgType < 4 && msgType != MSG_TYPE_RESPONSE
    ensures msgType < 4 ==> r || MsgHasId(msgType)
  {
    msgType == MSG_TYPE_REQUEST || msgType == MSG_TYPE_NOTIFY || msgType == MSG_TYPE_PUSH
  }

  /** What `msgEncode` needs so as not to index past the route: a compressed
      route supplies the two raw bytes `route[0]` and `route[1]`. */
  predicate Encodable(m: Message)
  {
    MsgHasRoute(m.MsgType) && m.CompressRoute ==> |m.Route| >= 2
  }

  // ---------------------------------------------------------------------
  // Specification of the wire layout

  /** The bytes `encodeMsgRoute` writes: the two raw route bytes, or the
      length truncated to a byte followed by the route itself. */
  function RouteField(route: seq<byte>, compressRoute: bool): seq<byte>
    requires compressRoute ==> |route| >= 2
  {
    if compressRoute then route[..2] else [Low8(|route|)] + route
  }

  function IdField(m: Message): seq<byte>
  {
    if MsgHasId(m.MsgType) then Varint.Encoding(m.MsgId as nat) else []
  }

  function RouteFieldOf(m: Message): seq<byte>
    requires Encodable(m)
  {
    if MsgHasRoute(m.MsgType) then RouteField(m.Route, m.CompressRoute) else []
  }

  /** The encoded message: flag byte, optional id, optional route, body. */
  function MsgBytes(m: Message): seq<byte>
    requires Encodable(m)
  {
    [Flag(m.MsgType, m.CompressRoute, m.CompressGzip)] + IdField(m) + RouteFieldOf(m) + m.MsgBody
  }

  /** The body carried by a package: the encoded message, or nothing. */
  function PackageBody(p: Package): seq<byte>
    requires p.Msg.Some? ==> Encodable(p.Msg.value)
  {
    match p.Msg
    case None => []
    case Some(m) => MsgBytes(m)
  }

  function PackageBytes(p: Package): seq<byte>
    requires p.Msg.Some? ==> Encodable(p.Msg.value)
  {
    [p.PkgType] + Be24(|PackageBody(p)|) + PackageBody(p)
  }

  /** Reads the id when the type has one: the value reduced to a Go `uint`
      and the offset after it. */
  function ParseId(data: seq<byte>, msgType: byte, offset: nat): (r: Decoded<(uint64, nat)>)
    ensures r.Decoded? ==> offset <= r.value.1 <= |data|
  {
    if !MsgHasId(msgType) then
      if offset <= |data| then Decoded((0, offset)) else Panics
    else
      match Varint.Parse(data, offset)
      case None => Panics
      case Some((v, e)) => Decoded(((v % UINT64_MODULUS) as uint64, e))
  }

  /** Reads the route when the type has one: two raw bytes, or a length byte
      and that many bytes; `Panics` where the Go code indexes past the end. */
  function ParseRoute(data: seq<byte>, msgType: byte, compressRoute: bool, offset: nat)
    : (r: Decoded<(seq<byte>, nat)>)
    requires offset <= |data|
    ensures r.Decoded? ==> offset <= r.value.1 <= |data|
  {
    if !MsgHasRoute(msgType) then Decoded(([], offset))
    else if compressRoute then
      if offset + 1 >= |data| then Panics
      else Decoded((data[offset..offset + 2], offset + 2))
    else if offset >= |data| then Panics
    else
      var n := data[offset] as nat;
      if offset + 1 + n > |data| then Panics
      else Decoded((data[offset + 1..offset + 1 + n], offset + 1 + n))
  }

  function MsgParse(data: seq<byte>): Decoded<Message>
  {
    if |data| == 0 then Panics
    else
      var flag := data[0];
      var msgType := FlagType(flag);
      match ParseId(data, msgType, 1)
      case Panics => Panics
      case Decoded((id, offset)) =>
        match ParseRoute(data, msgType, FlagRoute(flag), offset)
        case Panics => Panics
        case Decoded((route, offset')) =>
          Decoded(Message(id, msgType, FlagRoute(flag), FlagGzip(flag), route, data[offset'..]))
  }

  function PackageParse(data: seq<byte>): Decoded<Package>
  {
    if |data| < PKG_HEAD_BYTES then Panics
    else
      var n := Be24Value(data[1], data[2], data[3]);
      if n == 0 then Decoded(Package(data[0], None))
      else if PKG_HEAD_BYTES + n > |data| then Panics
      else
        match MsgParse(data[PKG_HEAD_BYTES..PKG_HEAD_BYTES + n])
        case Panics => Panics
        case Decoded(m) => Decoded(Package(data[0], Some(m)))
  }

  /** What the receiving side sees of a message that went through the wire:
      the id only where the type carries one, the route only where the type
      carries one, and of a compressed route its two raw bytes. */
  function Transmitted(m: Message): Message
    requires Encodable(m)
  {
    Message(
      if MsgHasId(m.MsgType) then m.MsgId else 0,
      m.MsgType, m.CompressRoute, m.CompressGzip,
      if !MsgHasRoute(m.MsgType) then []
      else if m.CompressRoute then m.Route[..2]
      else m.Route,
      m.MsgBody)
  }

  /** `s` with `w` written over it from offset `off` on. */
  function Splice(s: seq<byte>, off: nat, w: seq<byte>): (r: seq<byte>)
    requires off + |w| <= |s|
    ensures |r| == |s|
    decreases |w|
  {
    if |w| == 0 then s else Splice(s[off := w[0]], off + 1, w[1..])
  }

  /** Byte by byte: inside the window the written bytes, outside it the
      old ones. */
  lemma {:induction false} SpliceElements(s: seq<byte>, off: nat, w: seq<byte>)
    requires off + |w| <= |s|
    ensures forall k :: 0 <= k < |s| ==>
      Splice(s, off, w)[k] == if off <= k < off + |w| then w[k - off] else s[k]
    decreases |w|
  {
    if |w| > 0 {
      SpliceElements(s[off := w[0]], off + 1, w[1..]);
    }
  }

  /** Conversely, agreeing with `w` inside the window and with `s` outside
      it is being the splice. */
  lemma SpliceAgrees(s: seq<byte>, t: seq<byte>, off: nat, w: seq<byte>)
    requires off + |w| <= |s| && |t| == |s|
    requires forall j :: off <= j < off + |w| ==> t[j] == w[j - off]
    requires forall k :: 0 <= k < |s| && !(off <= k < off + |w|) ==> t[k] == s[k]
    ensures t == Splice(s, off, w)
  {
    SpliceElements(s, off, w);
    assert forall k | 0 <= k < |s| :: t[k] == Splice(s, off, w)[k];
  }

  lemma SpliceOne(s: seq<byte>, off: nat, x: byte)
    requires off < |s|
    ensures Splice(s, off, [x]) == s[off := x]
  {
    assert [x][1..] == [];
  }

  lemma SpliceTwice(s: seq<byte>, off: nat, a: seq<byte>, b: seq<byte>, mid: nat)
    requires mid == off + |a| && mid + |b| <= |s|
    ensures Splice(Splice(s, off, a), mid, b) == Splice(s, off, a + b)
  {
    var t := Splice(s, off, a);
    SpliceElements(s, off, a);
    SpliceElements(t, mid, b);
    SpliceElements(s, off, a + b);
    assert forall k | 0 <= k < |s| :: Splice(t, mid, b)[k] == Splice(s, off, a + b)[k];
  }

  /** Four writers that each start where the previous one stopped fill a
      buffer of exactly their total length with their concatenation. */
  lemma FillInOrder(s0: seq<byte>, a: seq<byte>, b: seq<byte>, c: seq<byte>, d: seq<byte>,
                    s1: seq<byte>, s2: seq<byte>, s3: seq<byte>, s4: seq<byte>,
                    o1: nat, o2: nat, o3: nat)
    requires |s0| == |a| + |b| + |c| + |d|
    requires o1 == |a| && o2 == o1 + |b| && o3 == o2 + |c|
    requires s1 == Splice(s0, 0, a)
    requires s2 == Splice(s1, o1, b)
    requires s3 == Splice(s2, o2, c)
    requires s4 == Splice(s3, o3, d)
    ensures s4 == a + b + c + d
  {
    var ab, abc := a + b, a + b + c;
    assert |ab| == o2 && |abc| == o3 && |abc + d| == |s0|;
    SpliceTwice(s0, 0, a, b, o1);
    SpliceTwice(s0, 0, a + b, c, o2);
    SpliceTwice(s0, 0, a + b + c, d, o3);
    SpliceWhole(s0, a + b + c + d);
  }

  lemma SpliceNothing(s: seq<byte>, off: nat)
    requires off <= |s|
    ensures Splice(s, off, []) == s
  {
  }

  /** Writing up to the end keeps only the untouched prefix. */
  lemma SpliceTail(s: seq<byte>, off: nat, w: seq<byte>)
    requires off + |w| == |s|
    ensures Splice(s, off, w) == s[..off] + w
  {
    SpliceElements(s, off, w);
    assert forall k | 0 <= k < |s| :: Splice(s, off, w)[k] == (s[..off] + w)[k];
  }

  lemma SpliceWhole(s: seq<byte>, w: seq<byte>)
    requires |w| == |s|
    ensures Splice(s, 0, w) == w
  {
    SpliceElements(s, 0, w);
  }

  // ---------------------------------------------------------------------
  // The buffer writers and the two codecs

  /** Copies `length` bytes of `src` from `sOffset` into `dest` at `dOffset`
      and leaves the rest of `dest` alone. */
  method CopyByteSlice(dest: array<byte>, dOffset: nat, src: seq<byte>, sOffset: nat, length: nat)
    requires dOffset + length <= dest.Length && sOffset + length <= |src|
    modifies dest
    ensures dest[..] == Splice(old(dest[..]), dOffset, src[sOffset..sOffset + length])
  {
    for i := 0 to length
      invariant forall k :: dOffset <= k < dOffset + i ==> dest[k] == src[sOffset + (k - dOffset)]
      invariant forall k :: 0 <= k < dest.Length && !(dOffset <= k < dOffset + i) ==> dest[k] == old(dest[k])
    {
      dest[dOffset + i] := src[sOffset + i];
    }
    SpliceAgrees(old(dest[..]), dest[..], dOffset, src[sOffset..sOffset + length]);
  }

  /** Counts the bytes of the id encoding. */
  method MsgIdBytes(id: uint64) returns (l: nat)
    ensures l == |Varint.Encoding(id as nat)| && l >= 1
  {
    l := 0;
    var v := id as nat;
    while true
      invariant l + |Varint.Encoding(v)| == |Varint.Encoding(id as nat)|
      decreases v
    {
      l := l + 1;
      v := v / 0x80;
      if v == 0 {
        break;
      }
    }
  }

  method EncodeMsgFlag(msgType: byte, compressRoute: bool, compressGzip: bool, buffer: array<byte>, offset: nat)
    returns (next: nat)
    requires offset < buffer.Length
    modifies buffer
    ensures next == offset + MSG_FLAG_BYTES
    ensures buffer[..] == Splice(old(buffer[..]), offset, [Flag(msgType, compressRoute, compressGzip)])
  {
    buffer[offset] := Low8(2 * msgType as nat);
    if compressRoute {
      buffer[offset] := SetBit(buffer[offset], COMPRESS_ROUTE_MASK);
    }
    if compressGzip {
      buffer[offset] := SetBit(buffer[offset], COMPRESS_GZIP_MASK);
    }
    next := offset + MSG_FLAG_BYTES;
  }

  /** The shift loop: low seven bits first, 0x80 on every byte but the last. */
  method EncodeMsgId(id: uint64, buffer: array<byte>, offset: nat) returns (next: nat)
    requires offset + |Varint.Encoding(id as nat)| <= buffer.Length
    modifies buffer
    ensures next == offset + |Varint.Encoding(id as nat)|
    ensures buffer[..] == Splice(old(buffer[..]), offset, Varint.Encoding(id as nat))
  {
    ghost var e := Varint.Encoding(id as nat);
    ghost var s0 := buffer[..];
    ghost var written: seq<byte> := [];
    var v := id as nat;
    next := offset;
    SpliceNothing(s0, offset);
    while true
      invariant next == offset + |written|
      invariant written + Varint.Encoding(v) == e
      invariant buffer[..] == Splice(s0, offset, written)
      decreases v
    {
      Varint.EncodingStep(v);
      ghost var rest := Varint.Encoding(v);
      var t := v % 0x80;
      v := v / 0x80;
      if v > 0 {
        t := t + 0x80;
      }
      assert rest == [t as byte] + rest[1..];
      ghost var before := buffer[..];
      buffer[next] := t as byte;
      SpliceOne(before, next, t as byte);
      SpliceTwice(s0, offset, written, [t as byte], next);
      written := written + [t as byte];
      next := next + 1;
      if v == 0 {
        break;
      }
      assert written + Varint.Encoding(v) == e;
    }
  }

  method EncodeMsgRoute(route: seq<byte>, compressRoute: bool, buffer: array<byte>, offset: nat)
    returns (next: nat)
    requires compressRoute ==> |route| >= 2
    requires offset + |RouteField(route, compressRoute)| <= buffer.Length
    modifies buffer
    ensures next == offset + |RouteField(route, compressRoute)|
    ensures buffer[..] == Splice(old(buffer[..]), offset, RouteField(route, compressRoute))
  {
    next := offset;
    if compressRoute {
      buffer[next] := route[0];
      next := next + 1;
      buffer[next] := route[1];
      next := next + 1;
      SpliceOne(old(buffer[..]), offset, route[0]);
      SpliceOne(Splice(old(buffer[..]), offset, [route[0]]), offset + 1, route[1]);
      SpliceTwice(old(buffer[..]), offset, [route[0]], [route[1]], offset + 1);
      assert [route[0]] + [route[1]] == route[..2];
    } else {
      if |route| > 0 {
        buffer[next] := Low8(|route|);
        next := next + 1;
        SpliceOne(old(buffer[..]), offset, Low8(|route|));
        CopyByteSlice(buffer, next, route, 0, |route|);
        next := next + |route|;
        assert route[0..|route|] == route;
        SpliceTwice(old(buffer[..]), offset, [Low8(|route|)], route, offset + 1);
      } else {
        buffer[next] := 0;
        next := next + 1;
        SpliceOne(old(buffer[..]), offset, 0);
        assert [Low8(|route|)] + route == [0];
      }
    }
  }

  method EncodeMsgBody(msgBody: seq<byte>, buffer: array<byte>, offset: nat) returns (next: nat)
    requires offset + |msgBody| <= buffer.Length
    modifies buffer
    ensures next == offset + |msgBody|
    ensures buffer[..] == Splice(old(buffer[..]), offset, msgBody)
  {
    CopyByteSlice(buffer, offset, msgBody, 0, |msgBody|);
    assert msgBody[0..|msgBody|] == msgBody;
    next := offset + |msgBody|;
  }

  /** Sizes the buffer exactly, then fills it with the writers; the final
      offset is the buffer's length. */
  method MsgEncode(m: Message) returns (buffer: seq<byte>)
    requires Encodable(m)
    ensures buffer == MsgBytes(m)
  {
    var idBytes := 0;
    if MsgHasId(m.MsgType) {
      idBytes := MsgIdBytes(m.MsgId);
    }
    var msgLen := MSG_FLAG_BYTES + idBytes;
    if MsgHasRoute(m.MsgType) {
      if m.CompressRoute {
        msgLen := msgLen + MSG_ROUTE_CODE_BYTES;
      } else {
        msgLen := msgLen + MSG_ROUTE_LEN_BYTES + |m.Route|;
      }
    }
    msgLen := msgLen + |m.MsgBody|;
    var buf := new byte[msgLen];

    ghost var flag, idf, rf := [Flag(m.MsgType, m.CompressRoute, m.CompressGzip)], IdField(m), RouteFieldOf(m);
    MsgBytesLength(m);
    assert msgLen == |flag| + |idf| + |rf| + |m.MsgBody|;
    ghost var s0 := buf[..];
    var offset: nat := 0;
    offset := EncodeMsgFlag(m.MsgType, m.CompressRoute, m.CompressGzip, buf, offset);
    ghost var s1, o1 := buf[..], offset;
    if MsgHasId(m.MsgType) {
      assert idf == Varint.Encoding(m.MsgId as nat);
      offset := EncodeMsgId(m.MsgId, buf, offset);
    } else {
      assert idf == [];
      SpliceNothing(s1, o1);
    }
    ghost var s2, o2 := buf[..], offset;
    if MsgHasRoute(m.MsgType) {
      assert rf == RouteField(m.Route, m.CompressRoute);
      offset := EncodeMsgRoute(m.Route, m.CompressRoute, buf, offset);
    } else {
      assert rf == [];
      SpliceNothing(s2, o2);
    }
    ghost var s3, o3 := buf[..], offset;
    if |m.MsgBody| > 0 {
      offset := EncodeMsgBody(m.MsgBody, buf, offset);
    } else {
      SpliceNothing(s3, o3);
    }
    FillInOrder(s0, flag, idf, rf, m.MsgBody, s1, s2, s3, buf[..], o1, o2, o3);
    buffer := buf[..];
  }

  /** `make([]byte, length)` followed by `copyByteSlice(x, 0, src, sOffset,
      length)`: a fresh copy of a window of `src`. */
  method MakeCopy(src: seq<byte>, sOffset: nat, length: nat) returns (x: seq<byte>)
    requires sOffset + length <= |src|
    ensures x == src[sOffset..sOffset + length]
  {
    var a := new byte[length];
    ghost var blank := a[..];
    CopyByteSlice(a, 0, src, sOffset, length);
    SpliceWhole(blank, src[sOffset..sOffset + length]);
    x := a[..];
  }

  /** The route part of `msgDecode`: two raw bytes when the route is
      compressed, otherwise a length byte and that many bytes; `Panics`
      where the Go code indexes past the end of `data`. */
  method DecodeMsgRoute(data: seq<byte>, msgType: byte, compressRoute: bool, offset: nat)
    returns (r: Decoded<(seq<byte>, nat)>)
    requires offset <= |data|
    ensures r == ParseRoute(data, msgType, compressRoute, offset)
  {
    var route: seq<byte> := [];
    var next := offset;
    if MsgHasRoute(msgType) {
      if compressRoute {
        if next + 1 >= |data| {
          return Panics;
        }
        var rt := new byte[2];
        rt[0] := data[next];
        rt[1] := data[next + 1];
        route := rt[..];
        assert route == data[next..next + 2];
        next := next + MSG_ROUTE_CODE_BYTES;
      } else {
        if next >= |data| {
          return Panics;
        }
        var routeLen := data[next] as nat;
        next := next + MSG_ROUTE_LEN_BYTES;
        if routeLen > 0 {
          if next + routeLen > |data| {
            return Panics;
          }
          route := MakeCopy(data, next, routeLen);
        }
        assert route == data[offset + 1..offset + 1 + routeLen];
        next := next + routeLen;
      }
    }
    r := Decoded((route, next));
  }

  /** Walks the buffer with a moving offset: flag, id (the accumulate loop),
      route, and the rest as body. */
  method MsgDecode(data: seq<byte>) returns (r: Decoded<Message>)
    ensures r == MsgParse(data)
  {
    if |data| == 0 {
      return Panics;
    }
    var offset: nat := 0;
    var flag := data[offset];
    offset := offset + 1;

    var compressGzip := FlagGzip(flag);
    var msgType := FlagType(flag);
    var compressRoute := FlagRoute(flag);

    var msgId: uint64 := 0;
    if MsgHasId(msgType) {
      var read := Varint.Read(data, offset);
      if read.None? {
        return Panics;
      }
      msgId := (read.value.0 % UINT64_MODULUS) as uint64;
      offset := read.value.1;
    }
    assert ParseId(data, msgType, 1) == Decoded((msgId, offset));

    var route := DecodeMsgRoute(data, msgType, compressRoute, offset);
    if route.Panics? {
      return Panics;
    }
    offset := route.value.1;

    var msgBodyLen := |data| - offset;
    var msgBody := MakeCopy(data, offset, msgBodyLen);
    assert offset + msgBodyLen == |data|;
    assert msgBody == data[offset..];
    r := Decoded(Message(msgId, msgType, compressRoute, compressGzip, route.value.0, msgBody));
  }

  /** Writes the header in place and copies the encoded message after it. */
  method Encode(p: Package) returns (buffer: seq<byte>)
    requires p.Msg.Some? ==> Encodable(p.Msg.value)
    ensures buffer == PackageBytes(p)
  {
    var body: seq<byte> := [];
    var bodyLen := 0;
    if p.Msg.Some? {
      body := MsgEncode(p.Msg.value);
      bodyLen := |body|;
    }
    var buf := new byte[PKG_HEAD_BYTES + bodyLen];

    buf[0] := p.PkgType;
    buf[1] := Low8(bodyLen / 0x1_0000);
    buf[2] := Low8(bodyLen / 0x100);
    buf[3] := Low8(bodyLen);
    ghost var header := buf[..];
    assert header[..PKG_HEAD_BYTES] == [p.PkgType] + Be24(bodyLen);

    if bodyLen > 0 {
      CopyByteSlice(buf, 4, body, 0, bodyLen);
      assert body[0..bodyLen] == body;
    } else {
      assert buf[..] == Splice(header, PKG_HEAD_BYTES, body);
    }
    SpliceTail(header, PKG_HEAD_BYTES, body);
    buffer := buf[..];
  }

  method Decode(data: seq<byte>) returns (r: Decoded<Package>)
    ensures r == PackageParse(data)
  {
    if |data| < PKG_HEAD_BYTES {
      return Panics;
    }
    var pkgType := data[0];

    var msg: Option<Message> := None;
    var bodyLen := data[1] as nat * 0x1_0000 + data[2] as nat * 0x100 + data[3] as nat;
    if bodyLen > 0 {
      if PKG_HEAD_BYTES + bodyLen > |data| {
        return Panics;
      }
      var body := new byte[bodyLen];
      ghost var blank := body[..];
      CopyByteSlice(body, 0, data, 4, bodyLen);
      SpliceWhole(blank, data[4..4 + bodyLen]);
      var decoded := MsgDecode(body[..]);
      if decoded.Panics? {
        return Panics;
      }
      msg := Some(decoded.value);
    }
    r := Decoded(Package(pkgType, msg));
  }

  // ---------------------------------------------------------------------
  // Properties of the layout

  /** The buffer length `msgEncode` computes: one flag byte, the id bytes
      (at least one) when the type has an id, two bytes or one plus the route
      length when the type has a route, and the body. */
  lemma MsgBytesLength(m: Message)
    requires Encodable(m)
    ensures |MsgBytes(m)| ==
      MSG_FLAG_BYTES
      + (if MsgHasId(m.MsgType) then |Varint.Encoding(m.MsgId as nat)| else 0)
      + (if !MsgHasRoute(m.MsgType) then 0
         else if m.CompressRoute then MSG_ROUTE_CODE_BYTES
         else MSG_ROUTE_LEN_BYTES + |m.Route|)
      + |m.MsgBody|
    ensures MsgHasId(m.MsgType) ==> |IdField(m)| >= 1
  {
  }

  /** `msgDecode(msgEncode(m))` recovers the type and both flags exactly,
      the id where the type has one (0 otherwise), the route where the type
      has one (its two raw bytes when compressed) and the body. */
  lemma {:induction false} MsgRoundTrip(m: Message)
    requires Encodable(m)
    requires m.MsgType < 8
    requires MsgHasRoute(m.MsgType) && !m.CompressRoute ==> |m.Route| < 0x100
    ensures MsgParse(MsgBytes(m)) == Decoded(Transmitted(m))
    ensures Transmitted(m).MsgType == m.MsgType && Transmitted(m).MsgBody == m.MsgBody
    ensures Transmitted(m).CompressRoute == m.CompressRoute && Transmitted(m).CompressGzip == m.CompressGzip
    ensures MsgHasId(m.MsgType) ==> Transmitted(m).MsgId == m.MsgId
    ensures MsgHasRoute(m.MsgType) && !m.CompressRoute ==> Transmitted(m).Route == m.Route
  {
    var flag := Flag(m.MsgType, m.CompressRoute, m.CompressGzip);
    var idf, rf := IdField(m), RouteFieldOf(m);
    var data := MsgBytes(m);
    FourParts([flag], idf, rf, m.MsgBody);
    FlagRoundTrip(m.MsgType, m.CompressRoute, m.CompressGzip);
    IdRoundTrip(m, data);
    RouteRoundTrip(m, data, 1 + |idf|);
    MsgParseOf(data, Transmitted(m), 1 + |idf|, 1 + |idf| + |rf|);
  }

  lemma IdRoundTrip(m: Message, data: seq<byte>)
    requires Encodable(m)
    requires 1 + |IdField(m)| <= |data| && data[1..1 + |IdField(m)|] == IdField(m)
    ensures ParseId(data, m.MsgType, 1) == Decoded((Transmitted(m).MsgId, 1 + |IdField(m)|))
  {
    if MsgHasId(m.MsgType) {
      Varint.ParseEncoding(data, 1, m.MsgId as nat);
    }
  }

  lemma RouteRoundTrip(m: Message, data: seq<byte>, offset: nat)
    requires Encodable(m)
    requires MsgHasRoute(m.MsgType) && !m.CompressRoute ==> |m.Route| < 0x100
    requires offset + |RouteFieldOf(m)| <= |data| && data[offset..offset + |RouteFieldOf(m)|] == RouteFieldOf(m)
    ensures ParseRoute(data, m.MsgType, m.CompressRoute, offset) ==
      Decoded((Transmitted(m).Route, offset + |RouteFieldOf(m)|))
  {
    var rf := RouteFieldOf(m);
    if MsgHasRoute(m.MsgType) && !m.CompressRoute {
      assert data[offset] == rf[0];
      assert data[offset + 1..offset + |rf|] == rf[1..];
    }
  }

  /** `MsgParse` assembled from its three readers. */
  lemma MsgParseOf(data: seq<byte>, d: Message, idEnd: nat, routeEnd: nat)
    requires 0 < |data| && idEnd <= routeEnd <= |data|
    requires d.MsgType == FlagType(data[0])
    requires d.CompressRoute == FlagRoute(data[0]) && d.CompressGzip == FlagGzip(data[0])
    requires ParseId(data, d.MsgType, 1) == Decoded((d.MsgId, idEnd))
    requires ParseRoute(data, d.MsgType, d.CompressRoute, idEnd) == Decoded((d.Route, routeEnd))
    requires data[routeEnd..] == d.MsgBody
    ensures MsgParse(data) == Decoded(d)
  {
  }

  /** Where each part of a four-part concatenation sits. */
  lemma FourParts(a: seq<byte>, b: seq<byte>, c: seq<byte>, d: seq<byte>)
    ensures (a + b + c + d)[..|a|] == a
    ensures (a + b + c + d)[|a|..|a| + |b|] == b
    ensures (a + b + c + d)[|a| + |b|..|a| + |b| + |c|] == c
    ensures (a + b + c + d)[|a| + |b| + |c|..] == d
  {
    var s := a + b + c + d;
    assert s == ((a + b) + c) + d;
  }

  /** Byte 0 is the package type and bytes 1..3 hold the body length, which
      is 0 exactly when there is no message: an encoded message always has
      its flag byte. */
  lemma PackageHeader(p: Package)
    requires p.Msg.Some? ==> Encodable(p.Msg.value)
    requires |PackageBody(p)| < LENGTH_MODULUS
    ensures |PackageBytes(p)| == PKG_HEAD_BYTES + |PackageBody(p)|
    ensures PackageBytes(p)[0] == p.PkgType
    ensures Be24Value(PackageBytes(p)[1], PackageBytes(p)[2], PackageBytes(p)[3]) == |PackageBody(p)|
    ensures PackageBytes(p)[PKG_HEAD_BYTES..] == PackageBody(p)
    ensures (|PackageBody(p)| == 0) <==> p.Msg.None?
  {
    HeaderLayout(p.PkgType, PackageBody(p));
  }

  lemma HeaderLayout(t: byte, body: seq<byte>)
    requires |body| < LENGTH_MODULUS
    ensures |[t] + Be24(|body|) + body| == PKG_HEAD_BYTES + |body|
    ensures ([t] + Be24(|body|) + body)[0] == t
    ensures ([t] + Be24(|body|) + body)[PKG_HEAD_BYTES..] == body
    ensures var s := [t] + Be24(|body|) + body; Be24Value(s[1], s[2], s[3]) == |body|
  {
    var s := [t] + Be24(|body|) + body;
    assert s[1..PKG_HEAD_BYTES] == Be24(|body|);
    Be24RoundTrip(|body|);
  }

  /** `Decode(Encode(p))` keeps the package type, and the message is nil
      exactly when it was nil before; a message comes back as `Transmitted`. */
  lemma PackageRoundTrip(p: Package)
    requires p.Msg.Some? ==> Encodable(p.Msg.value) && p.Msg.value.MsgType < 8
    requires p.Msg.Some? && MsgHasRoute(p.Msg.value.MsgType) && !p.Msg.value.CompressRoute ==>
      |p.Msg.value.Route| < 0x100
    requires |PackageBody(p)| < LENGTH_MODULUS
    ensures PackageParse(PackageBytes(p)) ==
      Decoded(Package(p.PkgType, if p.Msg.None? then None else Some(Transmitted(p.Msg.value))))
  {
    PackageHeader(p);
    var data := PackageBytes(p);
    var body := PackageBody(p);
    assert |data| >= PKG_HEAD_BYTES;
    var n := Be24Value(data[1], data[2], data[3]);
    assert n == |body|;
    if p.Msg.Some? {
      var m := p.Msg.value;
      MsgRoundTrip(m);
      assert data[PKG_HEAD_BYTES..PKG_HEAD_BYTES + n] == body == MsgBytes(m);
      assert MsgParse(body) == Decoded(Transmitted(m));
    }
  }
}
