/** The varint encoder of the WXF serializer: a non-negative integer written
    as 7-bit groups, least significant group first, every byte but the last
    carrying the continuation bit 0x80 (unsigned LEB128). The encoder writes
    into a fixed buffer of nine bytes, which bounds the values it accepts. */
module Varint {
  import opened Base

  /** Size of the `bytearray` the encoder writes into. */
  const BufferSize: nat := 9

  /** 2^63 == 128^9: the first value that needs a tenth group. */
  const Limit: nat := 0x8000_0000_0000_0000

  /** Number of 7-bit groups in the encoding of `v`. */
  function Groups(v: nat): (n: nat)
    ensures n >= 1
  {
    if v < 128 then 1 else 1 + Groups(v / 128)
  }

  function Pow128(k: nat): (p: nat)
    ensures p >= 1
    ensures k >= 1 ==> p >= 128
  {
    if k == 0 then 1 else 128 * Pow128(k - 1)
  }

  /** The value a byte string stands for: the sum of `(b & 0x7f) << 7i`
      over its bytes `b` at positions `i`. */
  function Decode(bs: seq<byte>): nat
  {
    if bs == [] then 0 else bs[0] % 128 + 128 * Decode(bs[1..])
  }

  /** Shape of a varint: at least one byte, continuation bit on every byte
      but the last, and off on the last. */
  predicate WellFormed(bs: seq<byte>)
  {
    |bs| >= 1 &&
    (forall i :: 0 <= i < |bs| - 1 ==> bs[i] >= 128) &&
    bs[|bs| - 1] < 128
  }

  /** A well-formed varint without a redundant zero group at the end. */
  predicate Canonical(bs: seq<byte>)
  {
    WellFormed(bs) && (|bs| == 1 || bs[|bs| - 1] != 0)
  }

  /** The bytes the encoder produces for `v`, group by group. */
  function Encode(v: nat): (bs: seq<byte>)
    ensures Canonical(bs)
    ensures |bs| == Groups(v)
  {
    if v < 128 then [v] else [v % 128 + 128] + Encode(v / 128)
  }

  /** Decoding the encoding gives the value back. */
  lemma {:induction false} DecodeEncode(v: nat)
    ensures Decode(Encode(v)) == v
  {
    if v >= 128 {
      var bs := Encode(v);
      assert bs[1..] == Encode(v / 128);
      DecodeEncode(v / 128);
    }
  }

  /** A canonical varint of two or more bytes stands for at least 128, and
      the only canonical encoding of zero is the single byte 0x00. */
  lemma {:induction false} CanonicalMagnitude(bs: seq<byte>)
    requires Canonical(bs)
    ensures |bs| > 1 ==> Decode(bs) >= 128
    ensures Decode(bs) == 0 ==> bs == [0]
  {
    if |bs| > 1 {
      var rest := bs[1..];
      assert Canonical(rest) by {
        assert forall i :: 0 <= i < |rest| - 1 ==> rest[i] == bs[i + 1];
      }
      CanonicalMagnitude(rest);
      assert Decode(rest) >= 1;
    }
  }

  /** Every canonical varint is the encoding of the value it stands for:
      the encoder hits each canonical byte string exactly once. */
  lemma {:induction false} EncodeDecode(bs: seq<byte>)
    requires Canonical(bs)
    ensures Encode(Decode(bs)) == bs
  {
    if |bs| > 1 {
      CanonicalTail(bs);
      EncodeDecode(bs[1..]);
      EncodeCons(bs);
    } else {
      assert Decode(bs[1..]) == 0;
      assert bs == [bs[0]];
    }
  }

  /** Dropping the lowest group of a canonical varint of two or more bytes
      leaves a canonical varint. */
  lemma CanonicalTail(bs: seq<byte>)
    requires Canonical(bs) && |bs| > 1
    ensures Canonical(bs[1..])
  {
    var rest := bs[1..];
    assert forall i :: 0 <= i < |rest| - 1 ==> rest[i] == bs[i + 1];
  }

  /** The step of `EncodeDecode`: when the higher groups of a canonical
      varint are the encoding of their value, so is the whole. */
  lemma EncodeCons(bs: seq<byte>)
    requires Canonical(bs) && |bs| > 1
    requires Encode(Decode(bs[1..])) == bs[1..]
    ensures Encode(Decode(bs)) == bs
  {
    var v, high := Decode(bs), Decode(bs[1..]);
    LowGroup(bs[0], high, v);
    assert v >= 128 by {
      CanonicalMagnitude(bs);
    }
    assert bs == [bs[0]] + bs[1..];
    assert Encode(v) == [bs[0]] + Encode(high);
  }

  /** A byte with the continuation bit, as the lowest group of a value:
      the group and the rest of the value come back out of it. */
  lemma LowGroup(b: byte, high: nat, v: int)
    requires b >= 128 && v == b % 128 + 128 * high
    ensures v % 128 + 128 == b && v / 128 == high
  {
    assert b % 128 == b - 128;
  }

  /** `v` fits in `k` groups exactly when it is below 128^k. */
  lemma {:induction false} GroupsBound(v: nat, k: nat)
    requires k >= 1
    ensures Groups(v) <= k <==> v < Pow128(k)
  {
    if v >= 128 && k > 1 {
      GroupsBound(v / 128, k - 1);
      var q, p := v / 128, Pow128(k - 1);
      assert v == 128 * q + v % 128;
      if q < p {
        assert 128 * q <= 128 * p - 128;
      } else {
        assert 128 * q >= 128 * p;
      }
    }
  }

  /** The nine-byte buffer holds exactly the values below 2^63. */
  lemma FitsInBuffer(v: nat)
    ensures Groups(v) <= BufferSize <==> v < Limit
  {
    assert Pow128(9) == Limit;
    GroupsBound(v, 9);
  }

  /** Moving the lowest group of `n` from the pending value to the output. */
  lemma SplitGroup(done: seq<byte>, n: nat)
    requires n >= 128
    ensures done + Encode(n) == (done + [n % 128 + 128]) + Encode(n / 128)
  {
  }

  /** `varint_bytes`: a negative value raises `TypeError` before any byte is
      produced; a value of ten or more groups overruns the nine-byte buffer
      and raises `IndexError`; every other value yields its encoding. */
  method VarintBytes(value: int) returns (r: Result<seq<byte>>)
    ensures value < 0 ==> r == Failure(TypeError)
    ensures 0 <= value < Limit ==> r == Success(Encode(value))
    ensures value >= Limit ==> r == Failure(IndexError)
    ensures r.Success? ==> 1 <= |r.value| <= BufferSize && Decode(r.value) == value
  {
    if value < 0 {
      return Failure(TypeError);
    }
    var buf := new byte[BufferSize];
    var n: nat := value;
    var count := 0;
    while true
      invariant 0 <= count <= buf.Length
      invariant count + Groups(n) == Groups(value)
      invariant buf[..count] + Encode(n) == Encode(value)
      decreases n
    {
      // `int_value & 0x7f` and `int_value >>= 7` on a non-negative value
      var next := n % 128;
      var shifted := n / 128;
      if count == buf.Length {
        // the assignment `buf[count] = ...` is out of range
        FitsInBuffer(value);
        return Failure(IndexError);
      }
      ghost var done := buf[..count];
      if shifted != 0 {
        buf[count] := next + 128;  // `next | 0x80`
        count := count + 1;
        assert buf[..count] == done + [next + 128];
        SplitGroup(done, n);
        n := shifted;
      } else {
        buf[count] := next;
        count := count + 1;
        assert buf[..count] == done + [next];
        break;
      }
    }
    FitsInBuffer(value);
    DecodeEncode(value);
    r := Success(buf[..count]);
  }

  /** `write_varint`: writes exactly the bytes `varint_bytes` produces and
      nothing when it raises. */
  method WriteVarint(value: int, stream: ByteStream) returns (r: Outcome)
    modifies stream
    ensures value < 0 ==> r == Fail(TypeError) && stream.data == old(stream.data)
    ensures 0 <= value < Limit ==> r == Pass && stream.data == old(stream.data) + Encode(value)
    ensures value >= Limit ==> r == Fail(IndexError) && stream.data == old(stream.data)
  {
    var bytes := VarintBytes(value);
    if bytes.Failure? {
      return Fail(bytes.error);
    }
    stream.Write(bytes.value);
    r := Pass;
  }

  /** Encodings known from the format: 0, 127, 128 and 300. */
  lemma KnownEncodings()
    ensures Encode(0) == [0x00]
    ensures Encode(127) == [0x7F]
    ensures Encode(128) == [0x80, 0x01]
    ensures Encode(300) == [0xAC, 0x02]
  {
  }
}
