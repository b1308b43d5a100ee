/** The message id encoding: unsigned base-128 with a continuation bit
    (LEB128, as in section 7.6 of the DWARF version 4 standard). Both codecs
    write it with a shift loop and read it back with an accumulate loop; this
    module is the specification both loops are proved against. */
module Varint {
  import opened Wire

  /** Low seven bits first, 0x80 on every byte but the last (see
      `ContinuationBits`). */
  function Encoding(n: nat): (r: seq<byte>)
    ensures 1 <= |r|
    decreases n
  {
    if n < 0x80 then [n as byte]
    else [(n % 0x80 + 0x80) as byte] + Encoding(n / 0x80)
  }

  /** Every byte but the last carries the continuation bit and the last
      one does not, so a reader stops exactly at the end of an encoding. */
  lemma {:induction false} ContinuationBits(n: nat)
    ensures forall i :: 0 <= i < |Encoding(n)| - 1 ==> Encoding(n)[i] >= 0x80
    ensures Encoding(n)[|Encoding(n)| - 1] < 0x80
    decreases n
  {
    if n >= 0x80 {
      ContinuationBits(n / 0x80);
      assert Encoding(n) == [(n % 0x80 + 0x80) as byte] + Encoding(n / 0x80);
    }
  }

  /** One step of the shift loop: the first byte is the low seven bits,
      with 0x80 when something is left, and the rest encodes what is left. */
  lemma EncodingStep(n: nat)
    ensures Encoding(n)[0] as int == if n / 0x80 > 0 then n % 0x80 + 0x80 else n % 0x80
    ensures Encoding(n)[1..] == if n / 0x80 > 0 then Encoding(n / 0x80) else []
  {
  }

  /** Reads an encoding starting at `i`: the value and the offset just past
      its last byte, or `None` when `s` ends before a byte below 0x80. */
  function Parse(s: seq<byte>, i: nat): (r: Option<(nat, nat)>)
    ensures r.Some? ==> i < r.value.1 <= |s|
    ensures r.Some? ==> s[r.value.1 - 1] < 0x80
    decreases |s| - i
  {
    if i >= |s| then None
    else if s[i] < 0x80 then Some((s[i] as nat, i + 1))
    else Shift((s[i] - 0x80) as nat, 0x80, Parse(s, i + 1))
  }

  /** A parse result whose value is placed `scale` positions higher, on top
      of the already accumulated `acc`. */
  function Shift(acc: nat, scale: nat, r: Option<(nat, nat)>): Option<(nat, nat)>
  {
    match r
    case None => None
    case Some((v, e)) => Some((acc + scale * v, e))
  }

  /** Shifting twice is shifting once by the product: this lets the
      accumulate loops keep `Parse(s, start) == Shift(acc, scale, Parse(s, i))`. */
  lemma ShiftShift(acc: nat, scale: nat, acc': nat, scale': nat, r: Option<(nat, nat)>)
    ensures Shift(acc, scale, Shift(acc', scale', r)) == Shift(acc + scale * acc', scale * scale', r)
  {
    match r
    case None =>
    case Some((v, e)) =>
      calc {
        acc + scale * (acc' + scale' * v);
        acc + scale * acc' + scale * (scale' * v);
        { MulAssoc(scale, scale', v); }
        acc + scale * acc' + (scale * scale') * v;
      }
  }

  lemma MulAssoc(a: nat, b: nat, c: nat)
    ensures a * (b * c) == (a * b) * c
  {
  }

  /** One step of the accumulate loop: a byte below 0x80 ends the number,
      any other byte contributes its low seven bits. */
  lemma ParseStep(s: seq<byte>, i: nat)
    requires i < |s|
    ensures s[i] < 0x80 ==> Parse(s, i) == Some((s[i] as nat, i + 1))
    ensures s[i] >= 0x80 ==> Parse(s, i) == Shift((s[i] - 0x80) as nat, 0x80, Parse(s, i + 1))
    ensures (s[i] % 0x80) as nat == if s[i] < 0x80 then s[i] as nat else (s[i] - 0x80) as nat
  {
  }

  /** The accumulate loop both decoders run inline: the byte at `offset + i`
      contributes `(b & 0x7f) << (7 * i)`, and the first byte below 0x80 is
      the last one read. `None` is where the Go code indexes past the end of
      `data`. The sum is unbounded here; callers reduce it to the Go width. */
  method Read(data: seq<byte>, offset: nat) returns (r: Option<(nat, nat)>)
    ensures r == Parse(data, offset)
  {
    var value: nat := 0;
    var scale: nat := 1;
    var next := offset;
    while true
      invariant offset <= next
      invariant Parse(data, offset) == Shift(value, scale, Parse(data, next))
      decreases |data| - next
    {
      if next >= |data| {
        return None;
      }
      var b := data[next];
      var digit := (b % 0x80) as nat;
      ParseStep(data, next);
      ShiftShift(value, scale, digit, 0x80, Parse(data, next + 1));
      value := value + scale * digit;
      next := next + 1;
      scale := scale * 0x80;
      if b < 0x80 {
        break;
      }
    }
    r := Some((value, next));
  }

  /** Decoding inverts encoding, wherever the encoding sits in the buffer:
      the value comes back and the offset lands just past the last byte. */
  lemma {:induction false} ParseEncoding(s: seq<byte>, i: nat, n: nat)
    requires i + |Encoding(n)| <= |s|
    requires s[i..i + |Encoding(n)|] == Encoding(n)
    ensures Parse(s, i) == Some((n, i + |Encoding(n)|))
    decreases n
  {
    var e := Encoding(n);
    assert s[i] == e[0];
    if n >= 0x80 {
      var tail := Encoding(n / 0x80);
      assert e == [(n % 0x80 + 0x80) as byte] + tail;
      assert s[i + 1..i + 1 + |tail|] == tail by {
        assert s[i + 1..i + 1 + |tail|] == s[i..i + |e|][1..];
      }
      ParseEncoding(s, i + 1, n / 0x80);
      assert n == n % 0x80 + 0x80 * (n / 0x80);
    }
  }

  /** An encoding never needs more than `k` bytes for a value below 128^k;
      in particular a Go `uint` takes at most ten. */
  lemma {:induction false} EncodingBound(n: nat, k: nat, bound: nat)
    requires 1 <= k && bound == Pow128(k) && n < bound
    ensures |Encoding(n)| <= k
    decreases k
  {
    if n >= 0x80 {
      assert k > 1;
      EncodingBound(n / 0x80, k - 1, Pow128(k - 1));
    }
  }

  function Pow128(k: nat): (p: nat)
    ensures p >= 1
  {
    if k == 0 then 1 else 0x80 * Pow128(k - 1)
  }

  lemma Uint64EncodingBound(id: uint64)
    ensures |Encoding(id as nat)| <= 10
  {
    assert Pow128(10) == 0x40_0000_0000_0000_0000;
    EncodingBound(id as nat, 10, Pow128(10));
  }

  /** Boundary cases: zero is the single byte 0x00 and reads back as
      `(0, 1)`; 300 takes two bytes and reads back as 300. */
  lemma Boundaries()
    ensures Encoding(0) == [0x00]
    ensures Parse([0x00], 0) == Some((0, 1))
    ensures Encoding(300) == [0xac, 0x02]
    ensures Parse([0xac, 0x02], 0) == Some((300, 2))
  {
  }
}
