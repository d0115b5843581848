/**
  The variable-length integer codec of the wire format.

  A value is written in one of four bands:
    - up to 240:    one byte, the value itself;
    - up to 2287:   two bytes, a lead byte in 241..248 and the low byte of the offset value;
    - up to 67823:  three bytes, the lead byte 249 and a big-endian 16-bit payload;
    - otherwise:    a lead byte 249 + n followed by an n-byte big-endian payload, 3 <= n <= 8.
  The long-form lead byte is stored in a uint8_t, so for n = 7 and n = 8 it wraps to
  0 and 1, and such values do not survive a round trip (see WideValueBreaksRoundTrip).
*/
module Varint {

  datatype Option<+T> = None | Some(value: T)

  type byte = b: int | 0 <= b < 256

  const U64_MOD: nat := 0x1_0000_0000_0000_0000
  /** Values below this bound take at most a 6-byte payload and round-trip. */
  const ROUND_TRIP_LIMIT: nat := 0x1_0000_0000_0000

  function Pow256(n: nat): (r: nat)
    ensures r > 0
  {
    if n == 0 then 1 else 256 * Pow256(n - 1)
  }

  /** The low `n` bytes of `v`, most significant first. */
  function BigEndian(v: nat, n: nat): (r: seq<byte>)
    ensures |r| == n
  {
    if n == 0 then [] else BigEndian(v / 256, n - 1) + [v % 256]
  }

  /** The number whose big-endian bytes are `s`. */
  function BigEndianValue(s: seq<byte>): (r: nat)
    ensures r < Pow256(|s|)
  {
    if s == [] then 0 else BigEndianValue(s[..|s| - 1]) * 256 + s[|s| - 1]
  }

  lemma {:induction false} BigEndianRoundTrip(v: nat, n: nat)
    requires v < Pow256(n)
    ensures BigEndianValue(BigEndian(v, n)) == v
  {
    if n > 0 {
      BigEndianRoundTrip(v / 256, n - 1);
      var s := BigEndian(v, n);
      assert s[..|s| - 1] == BigEndian(v / 256, n - 1);
    }
  }

  /** Number of payload bytes of a long-form encoding (encode_varint's `bytes`). */
  function PayloadLength(v: nat): (n: nat)
    ensures 3 <= n <= 8
  {
    if v <= 0xFF_FFFF then 3
    else if v <= 0xFFFF_FFFF then 4
    else if v <= 0xFF_FFFF_FFFF then 5
    else if v <= 0xFFFF_FFFF_FFFF then 6
    else if v <= 0xFF_FFFF_FFFF_FFFF then 7
    else 8
  }

  lemma PayloadFits(v: nat)
    requires v < U64_MOD
    ensures v < Pow256(PayloadLength(v))
    ensures v < ROUND_TRIP_LIMIT <==> PayloadLength(v) <= 6
  {
    assert Pow256(3) == 0x100_0000;
    assert Pow256(4) == 0x1_0000_0000;
    assert Pow256(5) == 0x100_0000_0000;
    assert Pow256(6) == 0x1_0000_0000_0000;
    assert Pow256(7) == 0x100_0000_0000_0000;
    assert Pow256(8) == 0x1_0000_0000_0000_0000;
  }

  /** The bytes encode_varint writes for `v`. */
  function Encode(v: nat): (r: seq<byte>)
    requires v < U64_MOD
    ensures 1 <= |r| <= 9
    ensures |r| == 1 <==> v <= 240
    ensures |r| == 2 <==> 240 < v <= 2287
    ensures |r| == 3 <==> 2287 < v <= 67823
  {
    if v <= 240 then [v]
    else if v <= 2287 then [(v - 240) / 256 + 241, (v - 240) % 256]
    else if v <= 67823 then [249, (v - 2288) / 256, (v - 2288) % 256]
    else
      var n := PayloadLength(v);
      [(249 + n) % 256] + BigEndian(v, n)
  }

  /** How many bytes decode_varint consumes once it has seen the lead byte `a0`. */
  function DeclaredLength(a0: byte): (n: nat)
    ensures 1 <= n <= 7
  {
    if a0 <= 240 then 1
    else if a0 <= 248 then 2
    else if a0 == 249 then 3
    else a0 - 248
  }

  /**
    decode_varint at offset `at`: the value and the number of bytes read, or None
    when the buffer ends before the band the lead byte declares.
  */
  function Decode(buf: seq<byte>, at: nat): (r: Option<(nat, nat)>)
    ensures r.None? <==> at >= |buf| || at + DeclaredLength(buf[at]) > |buf|
    ensures r.Some? ==> r.value.1 == DeclaredLength(buf[at]) && r.value.0 < ROUND_TRIP_LIMIT
  {
    if at >= |buf| || at + DeclaredLength(buf[at]) > |buf| then None
    else
      var a0: int := buf[at];
      if a0 <= 240 then Some((a0, 1))
      else if a0 <= 248 then Some((240 + 256 * (a0 - 241) + buf[at + 1] as int, 2))
      else if a0 == 249 then Some((2288 + 256 * (buf[at + 1] as int) + buf[at + 2] as int, 3))
      else
        var n := a0 - 249;
        assert Pow256(n) <= Pow256(6) by { PowMonotone(n, 6); }
        assert Pow256(6) == ROUND_TRIP_LIMIT;
        Some((BigEndianValue(buf[at + 1..at + 1 + n]), n + 1))
  }

  lemma {:induction false} PowMonotone(m: nat, n: nat)
    requires m <= n
    ensures Pow256(m) <= Pow256(n)
  {
    if m < n {
      PowMonotone(m, n - 1);
    }
  }

  /** Round trip: decoding an encoding yields the value and consumes exactly the bytes written. */
  lemma DecodeEncode(v: nat, buf: seq<byte>, at: nat)
    requires v < ROUND_TRIP_LIMIT
    requires at + |Encode(v)| <= |buf| && buf[at..at + |Encode(v)|] == Encode(v)
    ensures Decode(buf, at) == Some((v, |Encode(v)|))
  {
    if v > 67823 {
      DecodeEncodeLong(v, buf, at);
    } else {
      var e := Encode(v);
      assert buf[at] == e[0];
      if v > 240 {
        assert buf[at + 1] == e[1];
        if v > 2287 {
          assert buf[at + 2] == e[2];
        }
      }
    }
  }

  lemma DecodeEncodeLong(v: nat, buf: seq<byte>, at: nat)
    requires 67823 < v < ROUND_TRIP_LIMIT
    requires at + |Encode(v)| <= |buf| && buf[at..at + |Encode(v)|] == Encode(v)
    ensures Decode(buf, at) == Some((v, |Encode(v)|))
  {
    var e := Encode(v);
    var n := PayloadLength(v);
    PayloadFits(v);
    assert buf[at] == e[0] == 249 + n;
    assert buf[at + 1..at + 1 + n] == e[1..] == BigEndian(v, n);
    BigEndianRoundTrip(v, n);
  }

  /** The lead byte of a 7-byte payload wraps to 0, so 2^48 decodes as 0 after one byte. */
  lemma WideValueBreaksRoundTrip()
    ensures |Encode(ROUND_TRIP_LIMIT)| == 8
    ensures Decode(Encode(ROUND_TRIP_LIMIT), 0) == Some((0, 1))
  {
    var e := Encode(ROUND_TRIP_LIMIT);
    assert PayloadLength(ROUND_TRIP_LIMIT) == 7;
    assert e[0] == 0;
  }

  /** encode_varint: writes the encoding of `val` into `buf` at `at` and returns its length. */
  method EncodeVarint(val: nat, buf: array<byte>, at: nat) returns (n: nat)
    requires val < U64_MOD
    requires at + |Encode(val)| <= buf.Length
    modifies buf
    ensures n == |Encode(val)| && buf[at..at + n] == Encode(val)
    ensures buf[..at] == old(buf[..at]) && buf[at + n..] == old(buf[at + n..])
  {
    ghost var e := Encode(val);
    if val <= 240 {
      buf[at] := val;
      n := 1;
      assert buf[at..at + n] == [val];
      return;
    }
    if val <= 2287 {
      var x := val - 240;
      buf[at] := x / 256 + 241;
      buf[at + 1] := x % 256;
      n := 2;
      assert buf[at..at + n] == [x / 256 + 241, x % 256];
      return;
    }
    if val <= 67823 {
      var x := val - 2288;
      buf[at] := 249;
      buf[at + 1] := x / 256;
      buf[at + 2] := x % 256;
      n := 3;
      assert buf[at..at + n] == [249, x / 256, x % 256];
      return;
    }
    n := EncodeLong(val, buf, at);
  }

  /** The last band of encode_varint: a lead byte 249 + n, then the n-byte big-endian payload. */
  method EncodeLong(val: nat, buf: array<byte>, at: nat) returns (n: nat)
    requires at + 1 + PayloadLength(val) <= buf.Length
    modifies buf
    ensures n == 1 + PayloadLength(val)
    ensures buf[at..at + n] == [(249 + PayloadLength(val)) % 256] + BigEndian(val, PayloadLength(val))
    ensures buf[..at] == old(buf[..at]) && buf[at + n..] == old(buf[at + n..])
  {
    var bytes := PayloadLength(val);
    buf[at] := (249 + bytes) % 256;
    ghost var head := buf[..at + 1];
    WritePayload(val, bytes, buf, at + 1);
    n := bytes + 1;
    assert buf[..at + 1] == head;
    assert buf[at] == head[at];
    assert buf[..at] == head[..at];
    assert buf[at..at + n] == [buf[at]] + buf[at + 1..at + 1 + bytes];
  }

  /** The shifting loop of encode_varint: the low `bytes` bytes of `val`, big-endian, from `from` on. */
  method WritePayload(val: nat, bytes: nat, buf: array<byte>, from: nat)
    requires from + bytes <= buf.Length
    modifies buf
    ensures buf[from..from + bytes] == BigEndian(val, bytes)
    ensures buf[..from] == old(buf[..from]) && buf[from + bytes..] == old(buf[from + bytes..])
  {
    var i := bytes;
    var x := val;
    while i > 0
      invariant 0 <= i <= bytes
      invariant BigEndian(val, bytes) == BigEndian(x, i) + buf[from + i..from + bytes]
      invariant buf[..from] == old(buf[..from]) && buf[from + bytes..] == old(buf[from + bytes..])
    {
      buf[from + i - 1] := x % 256;
      assert buf[from + i - 1..from + bytes] == [x % 256] + buf[from + i..from + bytes];
      x := x / 256;
      i := i - 1;
    }
  }

  /**
    decode_varint: the value at `at` and the number of bytes read; the count is 0
    exactly when the buffer is too short for the declared band.
  */
  method DecodeVarint(buf: seq<byte>, at: nat) returns (val: nat, n: nat)
    ensures n == 0 <==> Decode(buf, at).None?
    ensures n > 0 ==> Decode(buf, at) == Some((val, n))
  {
    if at >= |buf| || at + DeclaredLength(buf[at]) > |buf| {
      return 0, 0;
    }
    var a0: int := buf[at];
    if a0 <= 240 {
      return a0, 1;
    }
    if a0 <= 248 {
      return 240 + 256 * (a0 - 241) + buf[at + 1] as int, 2;
    }
    if a0 == 249 {
      return 2288 + 256 * (buf[at + 1] as int) + buf[at + 2] as int, 3;
    }
    var bytes := a0 - 249;
    var result: nat := 0;
    var i := 1;
    while i <= bytes
      invariant 1 <= i <= bytes + 1
      invariant result == BigEndianValue(buf[at + 1..at + i])
    {
      assert buf[at + 1..at + i + 1][..i - 1] == buf[at + 1..at + i];
      result := result * 256 + buf[at + i] as int;
      i := i + 1;
    }
    return result, bytes + 1;
  }
}
