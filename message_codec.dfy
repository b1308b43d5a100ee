/** The message layer of message/message_codec.go: a process-wide route
    dictionary (route string <-> 16-bit code) filled first-wins, and a codec
    that writes a registered route as its code and an unregistered one
    literally, and passes the body through gzip when asked. gzip itself is a
    pair of function parameters. */
module MessageCodec {
  import opened Wire
  import Varint

  const REQUEST: byte := 0x00
  const NOTIFY: byte := 0x01
  const RESPONSE: byte := 0x02
  const PUSH: byte := 0x03

  datatype Message = Message(
    Type: byte,
    CompressRoute: bool,
    CompressGzip: bool,
    Id: uint64,
    Route: seq<byte>,
    Body: seq<byte>)

  /** `ErrGzip` stands for whatever error `deflate` or `inflate` returned. */
  datatype Error = ErrWrongMessageType | ErrGzip

  /** `deflate` / `inflate`: the compressed (or decompressed) bytes, or
      `None` for an error. */
  type Gzip = seq<byte> -> Option<seq<byte>>

  /** The valid message types are exactly 0..3. */
  function InvalidType(t: byte): (r: bool)
    ensures r <==> t > PUSH
  {
    t != REQUEST && t != NOTIFY && t != RESPONSE && t != PUSH
  }

  /** Of the four message types, the two even ones carry an id. */
  function HasId(t: byte): (r: bool)
    ensures r <==> t <= PUSH && t % 2 == 0
  {
    t == REQUEST || t == RESPONSE
  }

  /** Every valid type but a response carries a route, so each valid type
      carries an id or a route. */
  function HasRoute(t: byte): (r: bool)
    ensures r <==> t <= PUSH && t != RESPONSE
    ensures !InvalidType(t) ==> r || HasId(t)
  {
    t == REQUEST || t == NOTIFY || t == PUSH
  }

  // ---------------------------------------------------------------------
  // The route dictionary

  /** The two package maps `routes` and `codes`. */
  datatype Tables = Tables(routes: map<seq<byte>, uint16>, codes: map<uint16, seq<byte>>)

  /** `routes[r] == c` exactly when `codes[c] == r`. */
  ghost predicate Bijective(t: Tables)
  {
    && (forall r :: r in t.routes ==> t.routes[r] in t.codes && t.codes[t.routes[r]] == r)
    && (forall c :: c in t.codes ==> t.codes[c] in t.routes && t.routes[t.codes[c]] == c)
  }

  /** The order in which Go's `range` happens to visit `dict`: every key
      exactly once. */
  ghost predicate Listing(dict: map<seq<byte>, uint16>, order: seq<seq<byte>>)
  {
    && (forall r :: r in dict <==> r in order)
    && (forall i, j :: 0 <= i < j < |order| ==> order[i] != order[j])
  }

  /** One iteration of the `SetRouteDict` loop: a pair is added only when
      both its route and its code are new. */
  function Register(t: Tables, r: seq<byte>, c: uint16): (u: Tables)
    ensures r in u.routes || c in u.codes
    ensures t.routes.Keys <= u.routes.Keys && t.codes.Keys <= u.codes.Keys
    ensures u.routes.Keys <= t.routes.Keys + {r} && u.codes.Keys <= t.codes.Keys + {c}
  {
    if r in t.routes || c in t.codes then t
    else Tables(t.routes[r := c], t.codes[c := r])
  }

  /** The whole loop, visiting the keys of `dict` in `order`. */
  function RegisterAll(t: Tables, dict: map<seq<byte>, uint16>, order: seq<seq<byte>>): (u: Tables)
    requires forall r | r in order :: r in dict
    ensures t.routes.Keys <= u.routes.Keys && t.codes.Keys <= u.codes.Keys
    ensures forall r | r in u.routes :: r in t.routes || r in order
    decreases |order|
  {
    if |order| == 0 then t
    else RegisterAll(Register(t, order[0], dict[order[0]]), dict, order[1..])
  }

  /** The package-level `routes` / `codes` maps as one object. */
  class RouteDict {
    var routes: map<seq<byte>, uint16>
    var codes: map<uint16, seq<byte>>

    ghost predicate Valid()
      reads this
    {
      Bijective(Tables(routes, codes))
    }

    /** `make(map[string]uint16)` and `make(map[uint16]string)`. */
    constructor ()
      ensures routes == map[] && codes == map[]
      ensures Valid()
    {
      routes := map[];
      codes := map[];
    }

    /** Adds the pairs of `dict` that clash with nothing registered so far,
        earlier ones winning; `order` is the iteration order. */
    method SetRouteDict(dict: map<seq<byte>, uint16>, order: seq<seq<byte>>)
      requires Valid()
      requires Listing(dict, order)
      modifies this
      ensures Tables(routes, codes) == RegisterAll(old(Tables(routes, codes)), dict, order)
      ensures Valid()
    {
      ghost var start := Tables(routes, codes);
      for i := 0 to |order|
        invariant RegisterAll(start, dict, order) == RegisterAll(Tables(routes, codes), dict, order[i..])
      {
        var r := order[i];
        var c := dict[r];
        assert order[i..][1..] == order[i + 1..];
        if r in routes {
          continue;
        }
        if c in codes {
          continue;
        }
        routes := routes[r := c];
        codes := codes[c := r];
      }
      assert order[|order|..] == [];
      RegisterAllBijective(start, dict, order);
    }
  }

  lemma RegisterBijective(t: Tables, r: seq<byte>, c: uint16)
    requires Bijective(t)
    ensures Bijective(Register(t, r, c))
  {
  }

  /** `SetRouteDict` keeps `routes[r] == c <==> codes[c] == r`. */
  lemma {:induction false} RegisterAllBijective(t: Tables, dict: map<seq<byte>, uint16>, order: seq<seq<byte>>)
    requires forall r | r in order :: r in dict
    requires Bijective(t)
    ensures Bijective(RegisterAll(t, dict, order))
    decreases |order|
  {
    if |order| > 0 {
      RegisterBijective(t, order[0], dict[order[0]]);
      RegisterAllBijective(Register(t, order[0], dict[order[0]]), dict, order[1..]);
    }
  }

  /** First wins: a registered route or code keeps its partner, and a new
      pair comes from `dict` and was new in both maps when it was added. */
  lemma {:induction false} RegisterAllFirstWins(t: Tables, dict: map<seq<byte>, uint16>, order: seq<seq<byte>>)
    requires forall r | r in order :: r in dict
    ensures var u := RegisterAll(t, dict, order);
      && (forall r :: r in t.routes ==> r in u.routes && u.routes[r] == t.routes[r])
      && (forall c :: c in t.codes ==> c in u.codes && u.codes[c] == t.codes[c])
      && (forall r :: r in u.routes && r !in t.routes ==>
            r in order && u.routes[r] == dict[r] && dict[r] !in t.codes)
      && (forall c :: c in u.codes && c !in t.codes ==>
            u.codes[c] in order && dict[u.codes[c]] == c && u.codes[c] !in t.routes)
    decreases |order|
  {
    if |order| > 0 {
      var t' := Register(t, order[0], dict[order[0]]);
      RegisterAllFirstWins(t', dict, order[1..]);
      assert forall r | r in order[1..] :: r in order;
    }
  }

  /** Nothing of `dict` is silently lost: each of its routes ends up
      registered, or its code was already taken by another route. */
  lemma {:induction false} RegisterAllCovers(t: Tables, dict: map<seq<byte>, uint16>, order: seq<seq<byte>>)
    requires forall r | r in order :: r in dict
    ensures var u := RegisterAll(t, dict, order);
      forall r | r in order :: r in u.routes || dict[r] in u.codes
    decreases |order|
  {
    if |order| > 0 {
      var t' := Register(t, order[0], dict[order[0]]);
      RegisterAllCovers(t', dict, order[1..]);
      RegisterAllFirstWins(t', dict, order[1..]);
      assert forall r | r in order :: r == order[0] || r in order[1..];
    }
  }

  /** Into empty maps, a dictionary in which no two routes share a code is
      registered in full, whatever the iteration order. */
  lemma RegisterInjective(dict: map<seq<byte>, uint16>, order: seq<seq<byte>>)
    requires Listing(dict, order)
    requires forall r1, r2 :: r1 in dict && r2 in dict && r1 != r2 ==> dict[r1] != dict[r2]
    ensures RegisterAll(Tables(map[], map[]), dict, order).routes == dict
  {
    var u := RegisterAll(Tables(map[], map[]), dict, order);
    RegisterAllFresh(Tables(map[], map[]), dict, order);
    RegisterAllFirstWins(Tables(map[], map[]), dict, order);
    assert u.routes.Keys == dict.Keys;
  }

  lemma {:induction false} RegisterAllFresh(t: Tables, dict: map<seq<byte>, uint16>, order: seq<seq<byte>>)
    requires forall r | r in order :: r in dict
    requires forall i, j :: 0 <= i < j < |order| ==> order[i] != order[j]
    requires forall r1, r2 :: r1 in dict && r2 in dict && r1 != r2 ==> dict[r1] != dict[r2]
    requires forall r | r in order :: r !in t.routes && dict[r] !in t.codes
    ensures forall r | r in order ::
      r in RegisterAll(t, dict, order).routes && RegisterAll(t, dict, order).routes[r] == dict[r]
    decreases |order|
  {
    if |order| > 0 {
      var r0 := order[0];
      var t' := Register(t, r0, dict[r0]);
      assert forall r | r in order[1..] :: r != r0 by {
        forall r | r in order[1..] ensures r != r0 {
          var j :| 0 <= j < |order[1..]| && order[1..][j] == r;
          assert order[j + 1] == r;
        }
      }
      RegisterAllFresh(t', dict, order[1..]);
      RegisterAllFirstWins(t', dict, order[1..]);
    }
  }

  // ---------------------------------------------------------------------
  // The wire layout

  /** The flag as `Encode` builds it: `m.Type << 1` truncated to a byte, then
      the gzip bit, then the route bit. */
  function MessageFlag(t: byte, compressRoute: bool, compressGzip: bool): (f: byte)
    ensures FlagRoute(f) <==> compressRoute
    ensures compressGzip ==> FlagGzip(f)
  {
    var f := Low8(2 * t as nat);
    var f := if compressGzip then SetBit(f, COMPRESS_GZIP_MASK) else f;
    if compressRoute then SetBit(f, COMPRESS_ROUTE_MASK) else f
  }

  /** Setting the two bits in the other order gives the same flag, so the
      flag readers of `Wire` apply. */
  lemma MessageFlagIsFlag(t: byte, compressRoute: bool, compressGzip: bool)
    requires t < 8
    ensures MessageFlag(t, compressRoute, compressGzip) == Flag(t, compressRoute, compressGzip)
  {
    FlagValue(t, compressRoute, compressGzip);
    var f := Low8(2 * t as nat);
    assert f as int == 2 * t as int;
    var f' := if compressGzip then SetBit(f, COMPRESS_GZIP_MASK) else f;
    assert f' as int == 2 * t as int + (if compressGzip then 0x10 else 0);
  }

  /** `byte(code>>8&0xff)`, `byte(code&0xff)`. */
  function CodeBytes(c: uint16): (r: seq<byte>)
    ensures |r| == 2
  {
    [Low8(c as nat / 0x100), Low8(c as nat)]
  }

  /** `binary.BigEndian.Uint16`. */
  function CodeValue(hi: byte, lo: byte): (c: uint16)
    ensures c as int / 0x100 == hi as int && c as int % 0x100 == lo as int
  {
    (hi as int * 0x100 + lo as int) as uint16
  }

  lemma CodeRoundTrip(c: uint16)
    ensures CodeValue(CodeBytes(c)[0], CodeBytes(c)[1]) == c
  {
    var n := c as int;
    assert n == n / 0x100 * 0x100 + n % 0x100;
  }

  /** Whether the route goes out as its code: the caller asked for it and
      the route is registered. */
  predicate SendsCode(routes: map<seq<byte>, uint16>, m: Message)
  {
    m.CompressRoute && m.Route in routes
  }

  function IdField(m: Message): seq<byte>
  {
    if HasId(m.Type) then Varint.Encoding(m.Id as nat) else []
  }

  /** The two code bytes, or the length truncated to a byte and the route. */
  function RouteField(routes: map<seq<byte>, uint16>, m: Message): seq<byte>
  {
    if !HasRoute(m.Type) then []
    else if SendsCode(routes, m) then CodeBytes(routes[m.Route])
    else [Low8(|m.Route|)] + m.Route
  }

  /** What `Encode` returns for `m` under the dictionary `routes`. */
  function MessageBytes(routes: map<seq<byte>, uint16>, m: Message, deflate: Gzip): Result<seq<byte>, Error>
  {
    if InvalidType(m.Type) then Err(ErrWrongMessageType)
    else
      var head := [MessageFlag(m.Type, SendsCode(routes, m), m.CompressGzip)] + IdField(m) + RouteField(routes, m);
      if !m.CompressGzip then Ok(head + m.Body)
      else match deflate(m.Body)
        case None => Err(ErrGzip)
        case Some(df) => Ok(head + df)
  }

  /** `*m` after `Encode`: `CompressRoute` is cleared when the route does
      not go out as a code, and nothing else changes. */
  function AfterEncode(routes: map<seq<byte>, uint16>, m: Message): Message
  {
    if InvalidType(m.Type) then m else m.(CompressRoute := SendsCode(routes, m))
  }

  /** Reads the route when the type has one: a code looked up in `codes`
      (an unknown code is the empty route), or a length byte and that many
      bytes; `Panics` where the Go code slices past the end. */
  function ParseRoute(codes: map<uint16, seq<byte>>, data: seq<byte>, t: byte, compressRoute: bool, offset: nat)
    : (r: Decoded<(seq<byte>, nat)>)
    requires offset <= |data|
    ensures r.Decoded? ==> offset <= r.value.1 <= |data|
  {
    if !HasRoute(t) then Decoded(([], offset))
    else if compressRoute then
      if offset + 2 > |data| then Panics
      else
        var code := CodeValue(data[offset], data[offset + 1]);
        Decoded((if code in codes then codes[code] else [], offset + 2))
    else if offset >= |data| then Panics
    else
      var n := data[offset] as nat;
      if offset + 1 + n > |data| then Panics
      else Decoded((data[offset + 1..offset + 1 + n], offset + 1 + n))
  }

  /** Reads the id when the type has one, reduced to a Go `uint`. */
  function ParseId(data: seq<byte>, t: byte): (r: Decoded<(uint64, nat)>)
    requires 1 <= |data|
    ensures r.Decoded? ==> 1 <= r.value.1 <= |data|
  {
    if !HasId(t) then Decoded((0, 1))
    else
      match Varint.Parse(data, 1)
      case None => Panics
      case Some((v, e)) => Decoded(((v % UINT64_MODULUS) as uint64, e))
  }

  /** What `Decode` returns: it panics on short input, fails only when
      `inflate` fails, and never checks the type. */
  function MessageParse(codes: map<uint16, seq<byte>>, data: seq<byte>, inflate: Gzip): Decoded<Result<Message, Error>>
  {
    if |data| == 0 then Panics
    else
      var flag := data[0];
      var t := FlagType(flag);
      match ParseId(data, t)
      case Panics => Panics
      case Decoded((id, offset)) =>
        match ParseRoute(codes, data, t, FlagRoute(flag), offset)
        case Panics => Panics
        case Decoded((route, offset')) =>
          var body := data[offset'..];
          if !FlagGzip(flag) then Decoded(Ok(Message(t, FlagRoute(flag), false, id, route, body)))
          else match inflate(body)
            case None => Decoded(Err(ErrGzip))
            case Some(b) => Decoded(Ok(Message(t, FlagRoute(flag), true, id, route, b)))
  }

  /** What the receiving side sees of `m`: the flag bits as sent, the id and
      the route where the type carries them. */
  function Received(routes: map<seq<byte>, uint16>, m: Message): Message
  {
    Message(m.Type, SendsCode(routes, m), m.CompressGzip,
      if HasId(m.Type) then m.Id else 0,
      if HasRoute(m.Type) then m.Route else [],
      m.Body)
  }

  // ---------------------------------------------------------------------
  // The codec

  /** Appends the id with the shift loop. */
  method AppendId(buf: seq<byte>, id: uint64) returns (buf': seq<byte>)
    ensures buf' == buf + Varint.Encoding(id as nat)
  {
    var v := id as nat;
    buf' := buf;
    while true
      invariant buf' + Varint.Encoding(v) == buf + Varint.Encoding(id as nat)
      decreases v
    {
      Varint.EncodingStep(v);
      ghost var rest := Varint.Encoding(v);
      var t := v % 0x80;
      v := v / 0x80;
      if v > 0 {
        t := t + 0x80;
      }
      assert rest == [t as byte] + rest[1..];
      buf' := buf' + [t as byte];
      if v == 0 {
        break;
      }
      assert buf' + Varint.Encoding(v) == buf + Varint.Encoding(id as nat);
    }
  }

  /** `Encode(m)`: the bytes or an error, and `*m` as the call leaves it. */
  method Encode(dict: RouteDict, m: Message, deflate: Gzip) returns (r: Result<seq<byte>, Error>, m': Message)
    ensures r == MessageBytes(dict.routes, m, deflate)
    ensures m' == AfterEncode(dict.routes, m)
  {
    m' := m;
    if InvalidType(m.Type) {
      return Err(ErrWrongMessageType), m';
    }
    var buf: seq<byte> := [];
    var flag := Low8(2 * m.Type as nat);
    if m.CompressGzip {
      flag := SetBit(flag, COMPRESS_GZIP_MASK);
    }
    var exist := m.Route in dict.routes;
    if m.CompressRoute && exist {
      flag := SetBit(flag, COMPRESS_ROUTE_MASK);
    } else {
      m' := m'.(CompressRoute := false);
    }
    buf := buf + [flag];
    if HasId(m.Type) {
      buf := AppendId(buf, m.Id);
    }
    if HasRoute(m.Type) {
      if m'.CompressRoute {
        var code := dict.routes[m.Route];
        buf := buf + [Low8(code as nat / 0x100)];
        buf := buf + [Low8(code as nat)];
      } else {
        buf := buf + [Low8(|m.Route|)];
        buf := buf + m.Route;
      }
    }
    assert buf == [MessageFlag(m.Type, SendsCode(dict.routes, m), m.CompressGzip)] + IdField(m) + RouteField(dict.routes, m);
    if m.CompressGzip {
      var df := deflate(m.Body);
      if df.None? {
        return Err(ErrGzip), m';
      }
      buf := buf + df.value;
    } else {
      buf := buf + m.Body;
    }
    r := Ok(buf);
  }

  /** The route part of `Decode`. */
  method DecodeRoute(dict: RouteDict, data: seq<byte>, t: byte, compressRoute: bool, offset: nat)
    returns (r: Decoded<(seq<byte>, nat)>)
    requires offset <= |data|
    ensures r == ParseRoute(dict.codes, data, t, compressRoute, offset)
  {
    var route: seq<byte> := [];
    var next := offset;
    if HasRoute(t) {
      if compressRoute {
        if next + 2 > |data| {
          return Panics;
        }
        var code := CodeValue(data[next], data[next + 1]);
        next := next + 2;
        if code in dict.codes {
          route := dict.codes[code];
        }
      } else {
        if next >= |data| {
          return Panics;
        }
        var rl := data[next] as nat;
        next := next + 1;
        if next + rl > |data| {
          return Panics;
        }
        route := data[next..next + rl];
        next := next + rl;
      }
    }
    r := Decoded((route, next));
  }

  /** `Decode(data)`: a message or the `inflate` error, or a panic. */
  method Decode(dict: RouteDict, data: seq<byte>, inflate: Gzip) returns (r: Decoded<Result<Message, Error>>)
    ensures r == MessageParse(dict.codes, data, inflate)
  {
    if |data| == 0 {
      return Panics;
    }
    var flag := data[0];
    var t := FlagType(flag);
    var compressGzip := FlagGzip(flag);
    var compressRoute := FlagRoute(flag);

    var offset: nat := 1;
    var id: uint64 := 0;
    if HasId(t) {
      var read := Varint.Read(data, offset);
      if read.None? {
        return Panics;
      }
      id := (read.value.0 % UINT64_MODULUS) as uint64;
      offset := read.value.1;
    }
    assert ParseId(data, t) == Decoded((id, offset));

    var route := DecodeRoute(dict, data, t, compressRoute, offset);
    if route.Panics? {
      return Panics;
    }
    offset := route.value.1;

    var body := data[offset..];
    if compressGzip {
      var b := inflate(body);
      if b.None? {
        return Decoded(Err(ErrGzip));
      }
      body := b.value;
    }
    r := Decoded(Ok(Message(t, compressRoute, compressGzip, id, route.value.0, body)));
  }

  // ---------------------------------------------------------------------
  // Properties

  /** `Encode` fails with `ErrWrongMessageType` exactly for a type other
      than the four message types, and otherwise only when `deflate` fails. */
  lemma EncodeErrors(routes: map<seq<byte>, uint16>, m: Message, deflate: Gzip)
    ensures MessageBytes(routes, m, deflate) == Err(ErrWrongMessageType) <==> InvalidType(m.Type)
    ensures MessageBytes(routes, m, deflate) == Err(ErrGzip) <==>
      !InvalidType(m.Type) && m.CompressGzip && deflate(m.Body).None?
  {
  }

  /** The flag of an encoded message carries the type, the gzip bit as asked
      and the route bit exactly when the route goes out as a code. */
  lemma EncodeFlag(routes: map<seq<byte>, uint16>, m: Message, deflate: Gzip)
    requires MessageBytes(routes, m, deflate).Ok?
    ensures |MessageBytes(routes, m, deflate).value| >= 1
    ensures var flag := MessageBytes(routes, m, deflate).value[0];
      && FlagType(flag) == m.Type
      && (FlagRoute(flag) <==> m.CompressRoute && m.Route in routes)
      && (FlagGzip(flag) <==> m.CompressGzip)
  {
    MessageFlagIsFlag(m.Type, SendsCode(routes, m), m.CompressGzip);
    FlagRoundTrip(m.Type, SendsCode(routes, m), m.CompressGzip);
  }

  /** The route reader, for every type that carries a route and at any
      offset: a compressed code missing from `codes` is the empty route, and
      the read moves past the two code bytes. */
  lemma UnknownCodeAt(codes: map<uint16, seq<byte>>, data: seq<byte>, t: byte, offset: nat)
    requires offset + 2 <= |data| && HasRoute(t)
    requires CodeValue(data[offset], data[offset + 1]) !in codes
    ensures ParseRoute(codes, data, t, true, offset) == Decoded(([], (offset + 2) as nat))
  {
  }

  /** A whole message whose compressed code, read after the id where the
      type has one, is not in the dictionary: it decodes to the empty route
      and does not fail on that account; the body is the rest. */
  lemma UnknownCode(codes: map<uint16, seq<byte>>, data: seq<byte>, inflate: Gzip)
    requires |data| >= 1 && HasRoute(FlagType(data[0])) && FlagRoute(data[0])
    requires ParseId(data, FlagType(data[0])).Decoded?
    requires var offset := ParseId(data, FlagType(data[0])).value.1;
      offset + 2 <= |data| && CodeValue(data[offset], data[offset + 1]) !in codes
    ensures var id, offset := ParseId(data, FlagType(data[0])).value.0, ParseId(data, FlagType(data[0])).value.1;
      MessageParse(codes, data, inflate) ==
        if !FlagGzip(data[0]) then Decoded(Ok(Message(FlagType(data[0]), true, false, id, [], data[offset + 2..])))
        else match inflate(data[offset + 2..])
          case None => Decoded(Err(ErrGzip))
          case Some(b) => Decoded(Ok(Message(FlagType(data[0]), true, true, id, [], b)))
  {
    var offset := ParseId(data, FlagType(data[0])).value.1;
    UnknownCodeAt(codes, data, FlagType(data[0]), offset);
  }

  /** `Decode` never reports a wrong type: its only error is the `inflate`
      error of a message flagged as gzip-compressed. */
  lemma DecodeErrors(codes: map<uint16, seq<byte>>, data: seq<byte>, inflate: Gzip)
    requires MessageParse(codes, data, inflate).Decoded?
    requires MessageParse(codes, data, inflate).value.Err?
    ensures MessageParse(codes, data, inflate).value.error == ErrGzip
    ensures FlagGzip(data[0])
  {
  }

  /** The id reads back where the encoding sits. */
  lemma IdRoundTrip(data: seq<byte>, m: Message)
    requires 1 + |IdField(m)| <= |data|
    requires data[1..1 + |IdField(m)|] == IdField(m)
    ensures ParseId(data, m.Type) == Decoded((if HasId(m.Type) then m.Id else 0, 1 + |IdField(m)|))
  {
    if HasId(m.Type) {
      Varint.ParseEncoding(data, 1, m.Id as nat);
    }
  }

  /** The route reads back where its field sits: a code through the inverse
      map, a literal route when its length fits in the length byte. */
  lemma RouteRoundTrip(t: Tables, data: seq<byte>, m: Message, offset: nat)
    requires Bijective(t)
    requires HasRoute(m.Type) && !SendsCode(t.routes, m) ==> |m.Route| < 0x100
    requires offset + |RouteField(t.routes, m)| <= |data|
    requires data[offset..offset + |RouteField(t.routes, m)|] == RouteField(t.routes, m)
    ensures ParseRoute(t.codes, data, m.Type, SendsCode(t.routes, m), offset) ==
      Decoded((if HasRoute(m.Type) then m.Route else [], offset + |RouteField(t.routes, m)|))
  {
    var f := RouteField(t.routes, m);
    if HasRoute(m.Type) {
      assert data[offset] == f[0];
      if SendsCode(t.routes, m) {
        assert data[offset + 1] == f[1];
        CodeRoundTrip(t.routes[m.Route]);
      } else {
        assert data[offset + 1..offset + 1 + |m.Route|] == f[1..];
      }
    }
  }

  /** `Decode(Encode(m))`: for a dictionary in its bijective state, a route
      that is registered or fits its length byte, and an `inflate` that
      undoes `deflate` on this body, the receiving side gets `Received(m)`:
      type, gzip bit and body unchanged, the route bit as sent, the id and
      route where the type carries them. */
  lemma {:induction false} MessageRoundTrip(t: Tables, m: Message, deflate: Gzip, inflate: Gzip)
    requires Bijective(t)
    requires MessageBytes(t.routes, m, deflate).Ok?
    requires HasRoute(m.Type) && !SendsCode(t.routes, m) ==> |m.Route| < 0x100
    requires m.CompressGzip ==> deflate(m.Body).Some? && inflate(deflate(m.Body).value) == Some(m.Body)
    ensures MessageParse(t.codes, MessageBytes(t.routes, m, deflate).value, inflate) == Decoded(Ok(Received(t.routes, m)))
  {
    var data := MessageBytes(t.routes, m, deflate).value;
    var cr := SendsCode(t.routes, m);
    var idf, rf := IdField(m), RouteField(t.routes, m);
    var payload := if m.CompressGzip then deflate(m.Body).value else m.Body;
    var flag := MessageFlag(m.Type, cr, m.CompressGzip);
    assert data == [flag] + idf + rf + payload;
    EncodeFlag(t.routes, m, deflate);
    Layout(flag, idf, rf, payload);
    IdRoundTrip(data, m);
    RouteRoundTrip(t, data, m, 1 + |idf|);
    MessageParseOf(t.codes, data, inflate, if HasId(m.Type) then m.Id else 0, 1 + |idf|,
      if HasRoute(m.Type) then m.Route else [], 1 + |idf| + |rf|);
  }

  /** Where the four parts of an encoded message sit. */
  lemma Layout(flag: byte, idf: seq<byte>, rf: seq<byte>, payload: seq<byte>)
    ensures var data := [flag] + idf + rf + payload;
      && |data| == 1 + |idf| + |rf| + |payload|
      && data[0] == flag
      && data[1..1 + |idf|] == idf
      && data[1 + |idf|..1 + |idf| + |rf|] == rf
      && data[1 + |idf| + |rf|..] == payload
  {
    var data := [flag] + idf + rf + payload;
    assert data[1..] == idf + rf + payload;
  }

  /** `Decode` once the id and the route have been read: the rest is the
      body, passed through `inflate` when the gzip bit is set. */
  lemma MessageParseOf(codes: map<uint16, seq<byte>>, data: seq<byte>, inflate: Gzip,
                       id: uint64, o1: nat, route: seq<byte>, o2: nat)
    requires |data| >= 1 && o1 <= |data|
    requires ParseId(data, FlagType(data[0])) == Decoded((id, o1))
    requires ParseRoute(codes, data, FlagType(data[0]), FlagRoute(data[0]), o1) == Decoded((route, o2))
    ensures !FlagGzip(data[0]) ==>
      MessageParse(codes, data, inflate) ==
        Decoded(Ok(Message(FlagType(data[0]), FlagRoute(data[0]), false, id, route, data[o2..])))
    ensures FlagGzip(data[0]) && inflate(data[o2..]).Some? ==>
      MessageParse(codes, data, inflate) ==
        Decoded(Ok(Message(FlagType(data[0]), FlagRoute(data[0]), true, id, route, inflate(data[o2..]).value)))
  {
  }
}
