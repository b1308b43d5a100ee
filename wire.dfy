/** Byte-level vocabulary shared by the three codecs: Go's fixed-width integer
    types, the nil/panic outcomes of the Go code, the message flag byte and the
    24-bit big-endian length of the 4-byte packet header. */
module Wire {

  /** Go's `byte` / `uint8`. */
  newtype byte = x: int | 0 <= x < 0x100

  /** Go's `uint16` (route dictionary codes). */
  newtype uint16 = x: int | 0 <= x < 0x1_0000

  const UINT64_MODULUS: nat := 0x1_0000_0000_0000_0000

  /** Go's `uint` on a 64-bit platform (message ids). */
  newtype uint64 = x: int | 0 <= x < 0x1_0000_0000_0000_0000

  /** Largest payload length the 3-byte header field can carry, plus one. */
  const LENGTH_MODULUS: nat := 0x100_0000

  /** A Go pointer that may be nil. */
  datatype Option<T> = None | Some(value: T)

  /** A Go `(value, error)` pair: exactly one of the two is meaningful. */
  datatype Result<T, E> = Ok(value: T) | Err(error: E)

  /** How a Go decoder ends: it returns a value, or it indexes past the end of
      its input and the Go runtime panics. */
  datatype Decoded<T> = Decoded(value: T) | Panics

  /** Go's `byte(x & 0xff)` for a non-negative `x`. */
  function Low8(x: nat): (b: byte)
    ensures b as int == x % 0x100
  {
    (x % 0x100) as byte
  }

  /** Go's `x | mask` for a mask with the single bit 0 or bit 4 set: the bit
      is added when it is clear and the byte is left alone when it is set. */
  function SetBit(x: byte, mask: byte): (r: byte)
    requires mask == 0x01 || mask == 0x10
    ensures r == x || r as int == x as int + mask as int
    ensures mask == 0x01 ==> r % 2 == 1 && r / 2 == x / 2
    ensures mask == 0x10 ==> r / 0x10 % 2 == 1 && r % 0x10 == x % 0x10 && r / 0x20 == x / 0x20
  {
    if mask == 0x01 then (if x % 2 == 1 then x else x + 1)
    else if x / 0x10 % 2 == 1 then x else x + 0x10
  }

  const COMPRESS_ROUTE_MASK: byte := 0x01
  const COMPRESS_GZIP_MASK: byte := 0x10

  /** The flag byte of a message: `msgType << 1` truncated to a byte, then
      `| 0x01` for a compressed route and `| 0x10` for a gzip-compressed body. */
  function Flag(msgType: byte, compressRoute: bool, compressGzip: bool): (f: byte)
    ensures FlagRoute(f) <==> compressRoute
    ensures compressGzip ==> FlagGzip(f)
  {
    var f := Low8(2 * msgType as nat);
    var f := if compressRoute then SetBit(f, COMPRESS_ROUTE_MASK) else f;
    if compressGzip then SetBit(f, COMPRESS_GZIP_MASK) else f
  }

  /** `(flag & 0xe) >> 1`: bits 1 to 3. */
  function FlagType(flag: byte): (t: byte)
    ensures t < 8
  {
    flag / 2 % 8
  }

  /** `flag & 0x01 > 0`: bit 0. */
  function FlagRoute(flag: byte): (r: bool)
    ensures r <==> SetBit(flag, COMPRESS_ROUTE_MASK) == flag
  {
    flag % 2 == 1
  }

  /** `(flag & 0x10) >> 4 > 0`: bit 4. */
  function FlagGzip(flag: byte): (r: bool)
    ensures r <==> SetBit(flag, COMPRESS_GZIP_MASK) == flag
  {
    flag / 16 % 2 == 1
  }

  /** The three flag readers recover what `Flag` packed, for every type that
      fits in the three type bits. */
  lemma FlagRoundTrip(msgType: byte, compressRoute: bool, compressGzip: bool)
    requires msgType < 8
    ensures FlagType(Flag(msgType, compressRoute, compressGzip)) == msgType
    ensures FlagRoute(Flag(msgType, compressRoute, compressGzip)) == compressRoute
    ensures FlagGzip(Flag(msgType, compressRoute, compressGzip)) == compressGzip
  {
    var t := msgType as int;
    var c, g := if compressRoute then 1 else 0, if compressGzip then 1 else 0;
    FlagValue(msgType, compressRoute, compressGzip);
    var f := Flag(msgType, compressRoute, compressGzip) as int;
    assert f == 2 * t + c + 0x10 * g;
    DivModUnique(f, t + 8 * g, c, 2);
    DivModUnique(t + 8 * g, g, t, 8);
    DivModUnique(f, g, 2 * t + c, 0x10);
  }

  /** Below type 8 the three parts of the flag occupy disjoint bits, so the
      flag is their sum. */
  lemma FlagValue(msgType: byte, compressRoute: bool, compressGzip: bool)
    requires msgType < 8
    ensures Flag(msgType, compressRoute, compressGzip) as int ==
      2 * msgType as int + (if compressRoute then 1 else 0) + (if compressGzip then 0x10 else 0)
  {
    var f := Low8(2 * msgType as nat);
    assert f as int == 2 * msgType as int;
    var f' := if compressRoute then SetBit(f, COMPRESS_ROUTE_MASK) else f;
    assert f' as int == 2 * msgType as int + (if compressRoute then 1 else 0);
  }

  /** Bytes 1..3 of a packet header: `byte(n >> 16 & 0xff)`,
      `byte(n >> 8 & 0xff)`, `byte(n & 0xff)`. */
  function Be24(n: nat): (r: seq<byte>)
    ensures |r| == 3
  {
    [Low8(n / 0x1_0000), Low8(n / 0x100), Low8(n)]
  }

  /** `int(d1)<<16 + int(d2)<<8 + int(d3)`; the three terms occupy disjoint
      bits, so `|` and `+` agree. */
  function Be24Value(d1: byte, d2: byte, d3: byte): (n: nat)
    ensures n < LENGTH_MODULUS
  {
    d1 as nat * 0x1_0000 + d2 as nat * 0x100 + d3 as nat
  }

  /** The header length field holds the payload length modulo 2^24: exact
      below 2^24, wrapped around above. */
  lemma Be24RoundTrip(n: nat)
    ensures Be24Value(Be24(n)[0], Be24(n)[1], Be24(n)[2]) == n % LENGTH_MODULUS
    ensures n < LENGTH_MODULUS ==> Be24Value(Be24(n)[0], Be24(n)[1], Be24(n)[2]) == n
  {
    var q2, q1 := n / 0x1_0000, n / 0x100;
    var a, b, c := q2 % 0x100, q1 % 0x100, n % 0x100;
    DivDiv(n, 0x100, 0x100);
    assert q1 == q2 * 0x100 + b;
    assert n == q1 * 0x100 + c;
    var low := a * 0x1_0000 + b * 0x100 + c;
    assert n == (q2 / 0x100) * LENGTH_MODULUS + low;
    assert Be24Value(Be24(n)[0], Be24(n)[1], Be24(n)[2]) == low;
    DivModUnique(n, q2 / 0x100, low, LENGTH_MODULUS);
  }

  lemma DivDiv(n: nat, d1: nat, d2: nat)
    requires d1 > 0 && d2 > 0
    ensures n / d1 / d2 == n / (d1 * d2)
  {
    var q := n / (d1 * d2);
    var r := n % (d1 * d2);
    assert n == q * (d1 * d2) + r;
    assert n == (q * d2 + r / d1) * d1 + r % d1;
    DivModUnique(n, q * d2 + r / d1, r % d1, d1);
    DivModUnique(n / d1, q, r / d1, d2);
  }

  /** Quotient and remainder are the only such pair. */
  lemma DivModUnique(n: int, q: int, r: int, d: int)
    requires d > 0 && 0 <= r < d && n == q * d + r
    ensures n / d == q && n % d == r
  {
    var q', r' := n / d, n % d;
    assert q' * d + r' == q * d + r;
    if q' != q {
      var k := if q' > q then q' - q else q - q';
      assert k * d == if q' > q then r - r' else r' - r by {
        if q' > q { assert (q' - q) * d == q' * d - q * d; } else { assert (q - q') * d == q * d - q' * d; }
      }
      AtLeastOnce(k, d);
    }
  }

  lemma AtLeastOnce(k: int, d: int)
    requires k >= 1 && d > 0
    ensures k * d >= d
  {
    var j := k - 1;
    assert k * d == j * d + d;
  }
}
