# Pomelo wire protocol codec, modelled in Dafny

This project models the byte-level codec of a Go implementation of the
Pomelo game protocol and proves properties of it. The Go code has two layers,
and each layer is implemented twice:

- **Package / Message codec (`protocol.go`).** A `Package` has a 4-byte header:
  a type byte and a 24-bit big-endian body length. An optional `Message`
  follows it: a flag byte, an optional base-128 id, an optional route, and
  the body. `msgEncode` first computes the exact buffer length. Small writers
  then fill the preallocated buffer at a moving offset. `msgDecode` walks
  the buffer with an offset. Here a "compressed route" is simply the route's
  first two bytes, and the gzip flag is only a bit.
- **Message package (`message/message_codec.go`).** It keeps a process-wide
  route dictionary, `routes` (string to code) and `codes` (code to string),
  filled first-wins by `SetRouteDict`. `Encode` writes a registered route as
  its 16-bit big-endian code. It silently falls back to the literal route
  (and clears `m.CompressRoute`) when the route is unregistered. It passes
  the body through gzip when asked. `Decode` turns an unknown code into the
  empty route.
- **Packet package (`packet/packet_codec.go`).** A standalone 4-byte-header
  framer. It checks the packet type on encoding only.

## Files

- `wire.dfy` (module `Wire`): Go's fixed-width integers, and the outcomes
  `Decoded(v)` / `Panics`. A Go decoder that indexes past the end of its
  input panics, and `Panics` is that outcome. The module also holds the
  flag byte and its readers, and the 24-bit big-endian length.
- `varint.dfy` (module `Varint`): the base-128 id encoding (`Encoding`), its
  reader (`Parse`), and the accumulate loop that both decoders run
  (`Read`). The encoding is the unsigned LEB128 of section 7.6 of the DWARF
  version 4 standard.
- `protocol.dfy` (module `Protocol`): everything in `protocol.go`. The
  writers are methods on an `array<byte>`, each proved against `Splice`
  (a window of the buffer overwritten). The whole codec is proved against
  the specification functions `MsgBytes`, `PackageBytes`, `MsgParse` and
  `PackageParse`.
- `message_codec.dfy` (module `MessageCodec`): the dictionary is the class
  `RouteDict`, whose fields `routes` and `codes` `SetRouteDict` updates. The
  pure functions `Register` / `RegisterAll` specify it. `Encode` builds its
  buffer by appending, as the Go code does. gzip is passed in as the
  function parameters `deflate` and `inflate`.
- `packet_codec.dfy` (module `PacketCodec`): `Encode` writes an array in
  place, and `Decode` copies into a fresh array.

Two behaviours of the Go decoders are worth knowing:

- Go's decoders signal no truncation or route-length error. Short input
  indexes out of range, which the model shows as `Panics`. A route longer
  than 255 bytes gets a truncated length byte.
- `packet.Decode` ignores bytes after the payload
  (`PacketCodec.TrailingBytes`).

## Model

| member | source | states |
|---|---|---|
| Wire.FlagRoundTrip | protocol.go:85-93 | for every type that fits the three type bits, the two bits and the type that `encodeMsgFlag` packs are read back exactly by `(flag&0xe)>>1`, `flag&0x01` and `(flag&0x10)>>4` |
| Wire.FlagValue | protocol.go:186-195 | below type 8 the flag byte is `2*type + route bit + 0x10*gzip bit`: the OR of disjoint bits |
| Wire.Flag | protocol.go:186-195 | OR-ing the route mask leaves the route bit set exactly when a compressed route is asked for, whatever the type; OR-ing the gzip mask always sets the gzip bit |
| Wire.FlagRoute | protocol.go:90-93 | `flag&0x01 > 0` holds exactly when OR-ing the route mask leaves the flag unchanged |
| Wire.FlagGzip | protocol.go:85-88 | `(flag&0x10)>>4 > 0` holds exactly when OR-ing the gzip mask leaves the flag unchanged |
| Wire.SetBit | protocol.go:189 | OR-ing a single-bit mask either leaves the byte alone or adds exactly the mask |
| Wire.FlagType | protocol.go:89 | the decoded type always fits the three type bits (it is below 8) |
| Wire.Be24 | protocol.go:153-155 | the length field is exactly three bytes |
| Wire.Be24Value | protocol.go:168 | the three bytes read back always give a value below 2^24 |
| Wire.Be24RoundTrip | protocol.go:153-168 | writing a length in the header and reading it back gives the length modulo 2^24, and the length itself below 2^24 |
| Varint.Encoding | protocol.go:197-210 | an encoded id is never empty |
| Varint.ContinuationBits | protocol.go:199-202 | every byte of an encoding except the last has the continuation bit 0x80, and the last one does not |
| Varint.EncodingStep | protocol.go:199-203 | one loop step: the first byte is the low seven bits plus 0x80 when something is left, and the rest encodes `id >> 7` |
| Varint.Parse | protocol.go:100-108 | a successful read ends after its start, inside the buffer, on a byte below 0x80 |
| Varint.ShiftShift | protocol.go:102 | shifting by `7*i` and then by `7*j` equals shifting once by `7*(i+j)`, which is what lets the accumulated value track `Parse` |
| Varint.ParseStep | protocol.go:101-107 | one loop step: a byte below 0x80 ends the number, any other byte contributes its low seven bits and the read goes on |
| Varint.Read | protocol.go:97-109 | the accumulate loop returns exactly what `Parse` specifies, and `None` where Go indexes past the end |
| Varint.ParseEncoding | protocol.go:97-109 | decoding inverts encoding wherever the encoding sits: the value comes back and the offset lands just past its last byte |
| Varint.EncodingBound | protocol.go:237-247 | a value below 128^k takes at most k bytes |
| Varint.Uint64EncodingBound | protocol.go:237-247 | a Go `uint` id takes at most ten bytes |
| Varint.Boundaries | protocol/protocol_test.go:130-135 | id 0 encodes as the single byte 0x00 and reads back as 0; 300 takes two bytes and reads back as 300 |
| Protocol.MsgHasId | protocol.go:178-180 | of the four message types, exactly the two even ones (request and response) carry an id |
| Protocol.MsgHasRoute | protocol.go:182-184 | every message type except a response carries a route, so each of the four carries an id or a route |
| Protocol.ParseId | protocol.go:95-109 | the id reader never moves the offset backwards or past the end |
| Protocol.ParseRoute | protocol.go:111-127 | the route reader never moves the offset backwards or past the end |
| Protocol.CopyByteSlice | protocol.go:249-253 | `dest[dOffset+i] = src[sOffset+i]` for `i < length`, and every other byte of `dest` is left unchanged |
| Protocol.MsgIdBytes | protocol.go:237-247 | the counting loop returns the length of the id's encoding, which is at least 1 |
| Protocol.EncodeMsgFlag | protocol.go:186-195 | writes exactly the flag byte at `offset` and returns `offset + 1` |
| Protocol.EncodeMsgId | protocol.go:197-210 | the shift loop stays inside the buffer, writes exactly the id's encoding at `offset`, and returns `offset + msgIdBytes(id)` |
| Protocol.EncodeMsgRoute | protocol.go:212-230 | writes the two raw route bytes, or the length byte followed by the route (a single 0 for an empty route), and returns the offset just past them |
| Protocol.EncodeMsgBody | protocol.go:232-235 | copies the body at `offset` and returns `offset + len(body)` |
| Protocol.MsgEncode | protocol.go:48-77 | the computed length is exact: every write stays in the buffer, and the buffer ends up holding flag, id, route and body with nothing left over |
| Protocol.MakeCopy | protocol.go:129-131 | `make` followed by `copyByteSlice` yields exactly the window of the source |
| Protocol.DecodeMsgRoute | protocol.go:111-127 | the route part of `msgDecode` reads what `ParseRoute` specifies, and panics exactly where Go indexes past the end |
| Protocol.MsgDecode | protocol.go:79-141 | the decoder returns exactly `MsgParse(data)`: flag fields, id, route, and the rest of the buffer as body, or a panic on short input |
| Protocol.Encode | protocol.go:143-162 | the package is the type byte, the 24-bit body length, then the encoded message, or nothing for a nil message |
| Protocol.Decode | protocol.go:164-176 | the decoder returns exactly `PackageParse(data)`: a nil message for length 0, otherwise the decoded body, or a panic on short input |
| Protocol.MsgBytesLength | protocol.go:49-61 | the encoded message has the length `msgEncode` computes: 1 + id bytes + (2, or 1 + route length) + body length |
| Protocol.MsgRoundTrip | protocol.go:48-141 | for a type below 8 and a literal route of at most 255 bytes, `msgDecode(msgEncode(m))` keeps the type, both flags and the body, keeps the id when the type has one, and keeps the route or its two raw bytes when the type has one |
| Protocol.IdRoundTrip | protocol.go:97-109 | the id reads back from where `encodeMsgId` put it, or is 0 for a type without id |
| Protocol.RouteRoundTrip | protocol.go:111-127 | the route reads back from where `encodeMsgRoute` put it |
| Protocol.MsgParseOf | protocol.go:129-140 | once id and route are read, the rest of the buffer is the body |
| Protocol.PackageHeader | protocol.go:143-160 | byte 0 is the package type, bytes 1..3 hold the body length, the body follows, and the length is 0 exactly for a nil message |
| Protocol.PackageRoundTrip | protocol.go:164-176 | `Decode(Encode(p))` keeps the package type, gives a nil message exactly when `p.Msg` is nil, and otherwise the message as it went over the wire |
| MessageCodec.InvalidType | message/message_codec.go:168-170 | the valid message types are exactly 0..3 |
| MessageCodec.HasId | message/message_codec.go:172-174 | exactly the two even valid types (request and response) carry an id |
| MessageCodec.HasRoute | message/message_codec.go:176-178 | every valid type except a response carries a route, so each valid type carries an id or a route |
| MessageCodec.Register | message/message_codec.go:35-42 | one loop iteration: the route ends up registered or its code is taken, no key is removed, and at most this route and this code are added |
| MessageCodec.RegisterAll | message/message_codec.go:33-44 | the whole loop removes no key, and every registered route was registered before or is a key of `dict` |
| MessageCodec.RouteDict.constructor | message/message_codec.go:28-31 | the dictionary starts empty and bijective |
| MessageCodec.RouteDict.SetRouteDict | message/message_codec.go:33-44 | the loop leaves the maps as `RegisterAll` over the iteration order specifies, and keeps them bijective |
| MessageCodec.RegisterBijective | message/message_codec.go:35-42 | one first-wins insertion keeps `routes[r] == c <==> codes[c] == r` |
| MessageCodec.RegisterAllBijective | message/message_codec.go:33-44 | `SetRouteDict` keeps `routes[r] == c <==> codes[c] == r` |
| MessageCodec.RegisterAllFirstWins | message/message_codec.go:35-42 | an existing route or code is never overwritten; entries are only added, from `dict`, and only when both route and code were new |
| MessageCodec.RegisterAllCovers | message/message_codec.go:33-44 | every route of `dict` ends up registered, or its code is already taken by another route |
| MessageCodec.RegisterInjective | message/message_codec.go:33-44 | into empty maps, a dictionary in which no two routes share a code is registered in full, in any iteration order |
| MessageCodec.MessageFlagIsFlag | message/message_codec.go:53-64 | setting the gzip bit before the route bit gives the same flag as the other order, so the flag readers apply |
| MessageCodec.MessageFlag | message/message_codec.go:53-63 | the route bit is set exactly when the route goes out as a code, and the gzip bit whenever gzip is asked for |
| MessageCodec.CodeBytes | message/message_codec.go:82-83 | a route code is written as exactly two bytes |
| MessageCodec.CodeValue | message/message_codec.go:135 | `binary.BigEndian.Uint16` reads the first byte as the high byte and the second as the low byte of the code |
| MessageCodec.CodeRoundTrip | message/message_codec.go:135 | `binary.BigEndian.Uint16` reads back the code written as `code>>8`, `code&0xff` |
| MessageCodec.ParseRoute | message/message_codec.go:132-147 | the route reader never moves the offset backwards or past the end |
| MessageCodec.ParseId | message/message_codec.go:117-130 | the id reader stays inside the buffer, after the flag byte |
| MessageCodec.AppendId | message/message_codec.go:66-78 | the shift loop appends exactly the id's base-128 encoding |
| MessageCodec.Encode | message/message_codec.go:46-101 | returns exactly `MessageBytes` under the current dictionary; `*m` comes back with `CompressRoute` cleared unless the route goes out as a code, and nothing else changed |
| MessageCodec.DecodeRoute | message/message_codec.go:132-147 | the route part of `Decode` reads what `ParseRoute` specifies, and resolves a code through `codes` |
| MessageCodec.Decode | message/message_codec.go:103-166 | the decoder returns exactly `MessageParse`: the header fields, the rest as body (inflated when the gzip bit is set), the `inflate` error, or a panic on short input |
| MessageCodec.EncodeErrors | message/message_codec.go:47-49 | `Encode` returns `ErrWrongMessageType` exactly for a type outside 0..3, and the gzip error exactly when the type is valid, gzip is asked for, and `deflate` fails |
| MessageCodec.EncodeFlag | message/message_codec.go:53-64 | the flag carries the type and the gzip bit as asked, and has the route bit exactly when `m.CompressRoute` is set and the route is registered |
| MessageCodec.UnknownCodeAt | message/message_codec.go:134-140 | for every type that carries a route and at any offset, a compressed code missing from `codes` reads as the empty route and the read moves past the two code bytes |
| MessageCodec.UnknownCode | message/message_codec.go:103-166 | a message whose compressed code (after the id, where the type has one) is missing from `codes` decodes with the empty route and the rest as body, and fails only if `inflate` does |
| MessageCodec.DecodeErrors | message/message_codec.go:150-156 | `Decode` never reports a wrong type: its only error is the `inflate` error of a message with the gzip bit set |
| MessageCodec.IdRoundTrip | message/message_codec.go:117-130 | the id reads back from where the shift loop put it, or is 0 for a type without id |
| MessageCodec.RouteRoundTrip | message/message_codec.go:132-147 | for a bijective dictionary, a registered route comes back through its code, and a literal route of at most 255 bytes comes back verbatim |
| MessageCodec.MessageRoundTrip | message/message_codec.go:46-166 | `Decode(Encode(m))` keeps type, gzip bit and body, carries the route bit as sent, keeps the id and route where the type has them, for a bijective dictionary, a route that is registered or at most 255 bytes, and an `inflate` that undoes `deflate` on the body |
| MessageCodec.MessageParseOf | message/message_codec.go:149-156 | the body is everything after the header fields, passed through `inflate` when the gzip bit is set |
| PacketCodec.Encode | packet/packet_codec.go:19-34 | returns exactly `PacketBytes(p)`: the wrong-type error, or type byte, 24-bit length and payload written in place |
| PacketCodec.Decode | packet/packet_codec.go:36-45 | returns exactly `PacketParse(d)`: the type byte unchecked, that many payload bytes (none for length 0), or a panic on short input |
| PacketCodec.InvalidType | packet/packet_codec.go:47-49 | the valid packet types are exactly 1..5 |
| PacketCodec.EncodeError | packet/packet_codec.go:47-49 | `Encode` fails exactly for a type outside 1..5 |
| PacketCodec.EncodeLayout | packet/packet_codec.go:23-32 | the encoding is `4 + len(Data)` bytes: byte 0 the type, bytes 1..3 the big-endian length, and `Data` from byte 4 on |
| PacketCodec.RoundTrip | packet/packet_codec.go:36-45 | `Decode(Encode(p))` keeps the type and the payload cut to its length modulo 2^24, so all of it below 2^24 bytes |
| PacketCodec.TrailingBytes | packet/packet_codec.go:38-43 | bytes after the payload do not change the result, and the type byte comes back whatever it is |

## Left out

- gzip (`deflate`/`inflate`, message/message_codec.go:180-207) is opaque.
  The model passes it in as two function parameters that return `None` for
  an error. Its round-trip property is a precondition of
  `MessageCodec.MessageRoundTrip`, stated for the one body involved.
- Concurrency on the package-level `routes`/`codes` maps is not modelled.
  The maps are the fields of one `RouteDict` object.
- Go's map iteration order in `SetRouteDict` is unspecified. It is the
  parameter `order`, a duplicate-free listing of the dictionary's keys.
- `MessageCodec.Encode` writes `m.CompressRoute = false` through the
  pointer. The model returns the updated message as a second result instead.
- Slices are values: aliasing between `copyByteSlice`'s source and
  destination, and the sharing of `data[offset:]` with the decoded body,
  are not modelled.
- `PacketCodec.Decode` assumes `cap == len`. Go checks
  `d[HeadLength:HeadLength+length]` against `cap(d)`, so with spare capacity
  Go reads stale bytes past `len` where the model gives `Panics`.
- A nil slice and an empty one are the same (`[]`). This affects
  `Packet.Data` and a decoded empty route or body.
- `Varint.Read`, `Protocol.DecodeMsgRoute`, `Protocol.MakeCopy`,
  `MessageCodec.AppendId` and `MessageCodec.DecodeRoute` are code that Go
  writes inline in `msgDecode`, `Encode` and `Decode`. The model factors it
  into helper methods, keeping the same statements.
- The Go `uint` id is 64 bits. The decoders accumulate without bound and
  reduce modulo 2^64, which is what Go's wrapping shifts and adds yield.
- `Protocol.MsgRoundTrip`, `Protocol.PackageRoundTrip` and
  `MessageCodec.MessageRoundTrip` require a literal route of at most 255
  bytes. `byte(len(route))` truncates a longer length, and the round trip
  then fails. `Protocol.MsgRoundTrip` also requires a type below 8: `msgType << 1`
  truncates larger types.
- `Protocol.PackageHeader` and `Protocol.PackageRoundTrip` require a body
  shorter than 2^24 bytes. Above that, the header holds the length modulo
  2^24. `PacketCodec.RoundTrip` states the wrapped result in full.
- `Protocol.MsgEncode` requires `Encodable`: a compressed route must have its
  two bytes. `encodeMsgRoute` indexes `route[0]` and `route[1]`, and Go
  panics when they are missing.
- message/message.go and packet/packet.go are modelled only as the datatypes
  `MessageCodec.Message` and `PacketCodec.Packet`. Their one-line
  `Encode` wrappers are left out. The test files are not modelled.
