/** Little-endian integer codecs: Python's `int.to_bytes(n, 'little')` /
    `int.from_bytes(b, 'little')` (unsigned) and Java's little-endian
    `ByteBuffer.putInt` / `getInt` (signed 32-bit). */
module IntCodec {
  import opened Wrappers
  import Int32

  type Byte = x: int | 0 <= x < 256

  datatype CodecError = OverflowError

  function Pow256(k: nat): (r: nat)
    ensures r >= 1
  {
    if k == 0 then 1 else 256 * Pow256(k - 1)
  }

  /** `int.from_bytes(b, byteorder='little')`: unsigned, over all bytes. */
  function FromBytes(b: seq<Byte>): (r: nat)
    ensures r < Pow256(|b|)
  {
    if b == [] then 0 else b[0] + 256 * FromBytes(b[1..])
  }

  /** The `length` little-endian bytes of `n`. */
  function UnsignedBytes(n: nat, length: nat): (r: seq<Byte>)
    requires n < Pow256(length)
    ensures |r| == length
  {
    if length == 0 then [] else [n % 256] + UnsignedBytes(n / 256, length - 1)
  }

  /** `n.to_bytes(length, byteorder='little')`: OverflowError for a negative
      `n` or one that does not fit. */
  function ToBytes(n: int, length: nat): (r: Result<seq<Byte>, CodecError>)
    ensures r.Ok? <==> 0 <= n < Pow256(length)
    ensures r.Ok? ==> |r.value| == length && FromBytes(r.value) == n
  {
    if 0 <= n < Pow256(length) then
      FromUnsignedBytes(n, length);
      Ok(UnsignedBytes(n, length))
    else Err(OverflowError)
  }

  /** Decoding the encoding of `n` gives `n`. */
  lemma {:induction false} FromUnsignedBytes(n: nat, length: nat)
    requires n < Pow256(length)
    ensures FromBytes(UnsignedBytes(n, length)) == n
  {
    if length > 0 {
      assert n / 256 < Pow256(length - 1);
      var b := UnsignedBytes(n, length);
      assert b[1..] == UnsignedBytes(n / 256, length - 1);
      FromUnsignedBytes(n / 256, length - 1);
    }
  }

  /** Encoding the value of a byte string gives the byte string back. */
  lemma {:induction false} UnsignedBytesOfFromBytes(b: seq<Byte>)
    ensures UnsignedBytes(FromBytes(b), |b|) == b
  {
    if b != [] {
      var n := FromBytes(b);
      assert n % 256 == b[0] && n / 256 == FromBytes(b[1..]);
      UnsignedBytesOfFromBytes(b[1..]);
    }
  }

  lemma Pow256Four()
    ensures Pow256(4) == Int32.Modulus
  {
    assert Pow256(4) == 256 * Pow256(3);
  }

  /** `ByteBuffer.allocate(4).order(LITTLE_ENDIAN).putInt(n).array()`. */
  function EncodeInt32(n: int): (r: seq<Byte>)
    requires Int32.InRange(n)
    ensures |r| == 4
  {
    Pow256Four();
    UnsignedBytes(if n < 0 then n + Int32.Modulus else n, 4)
  }

  /** `ByteBuffer.wrap(b).order(LITTLE_ENDIAN).getInt()`: the first four bytes
      as a two's-complement integer. */
  function DecodeInt32(b: seq<Byte>): (r: int)
    requires |b| >= 4
    ensures Int32.InRange(r)
  {
    Pow256Four();
    var u := FromBytes(b[..4]);
    if u > Int32.MaxValue then u - Int32.Modulus else u
  }

  /** Round trip for every 32-bit integer. */
  lemma DecodeEncode(n: int)
    requires Int32.InRange(n)
    ensures DecodeInt32(EncodeInt32(n)) == n
  {
    Pow256Four();
    var u := if n < 0 then n + Int32.Modulus else n;
    FromUnsignedBytes(u, 4);
    assert EncodeInt32(n)[..4] == EncodeInt32(n);
  }

  /** Round trip for every 4-byte string. */
  lemma EncodeDecode(b: seq<Byte>)
    requires |b| == 4
    ensures EncodeInt32(DecodeInt32(b)) == b
  {
    Pow256Four();
    assert b[..4] == b;
    UnsignedBytesOfFromBytes(b);
  }
}

/** The Java UDP server: zero the receive buffer, receive, decode a
    little-endian int, increment it with wrap-around, and reply with the
    4-byte little-endian encoding. */
module IncrementServer {
  import Int32
  import opened IntCodec

  const BufferSize: nat := 1024

  /** Buffer contents after `Arrays.fill(buffer, 0)` and receiving `datagram`:
      the datagram (cut to the buffer size), then zeros. */
  function Received(datagram: seq<Byte>): (r: seq<Byte>)
    ensures |r| == BufferSize
    ensures forall i :: 0 <= i < |r| ==> r[i] == (if i < |datagram| then datagram[i] else 0)
  {
    var n := if |datagram| <= BufferSize then |datagram| else BufferSize;
    datagram[..n] + seq(BufferSize - n, _ => 0)
  }

  /** The reply to `datagram`: four bytes holding the received value plus one,
      wrapped to 32 bits. */
  function Reply(datagram: seq<Byte>): (r: seq<Byte>)
    ensures |r| == 4
    ensures DecodeInt32(r) == Int32.Wrap(DecodeInt32(Received(datagram)) + 1)
  {
    var nb := Int32.Wrap(DecodeInt32(Received(datagram)) + 1);
    DecodeEncode(nb);
    EncodeInt32(nb)
  }

  /** Bytes missing from a short datagram read as zero. */
  lemma ShortDatagramPadded(datagram: seq<Byte>)
    requires |datagram| < 4
    ensures DecodeInt32(Received(datagram)) == DecodeInt32(datagram + seq(4 - |datagram|, _ => 0))
  {
    var padded := datagram + seq(4 - |datagram|, _ => 0);
    assert Received(datagram)[..4] == padded[..4];
  }

  /** The largest int comes back as the smallest. */
  lemma MaxIntWraps()
    ensures Reply(EncodeInt32(Int32.MaxValue)) == EncodeInt32(Int32.MinValue)
  {
    var d := EncodeInt32(Int32.MaxValue);
    assert Received(d)[..4] == d[..4];
    DecodeEncode(Int32.MaxValue);
  }

  class UdpServer {
    const receiveBuffer: array<Byte>

    constructor ()
      ensures receiveBuffer.Length == BufferSize && fresh(receiveBuffer)
    {
      receiveBuffer := new Byte[BufferSize](_ => 0);
    }

    /** One pass of the `while (true)` loop for one incoming datagram. */
    method Serve(datagram: seq<Byte>) returns (reply: seq<Byte>)
      requires receiveBuffer.Length == BufferSize
      modifies receiveBuffer
      ensures receiveBuffer[..] == Received(datagram)
      ensures reply == Reply(datagram)
    {
      // Arrays.fill(receiveBuffer, (byte) 0)
      for i := 0 to receiveBuffer.Length
        invariant forall k :: 0 <= k < i ==> receiveBuffer[k] == 0
      {
        receiveBuffer[i] := 0;
      }
      // socket.receive copies at most the buffer's length
      var n := if |datagram| <= receiveBuffer.Length then |datagram| else receiveBuffer.Length;
      for i := 0 to n
        invariant forall k :: 0 <= k < i ==> receiveBuffer[k] == datagram[k]
        invariant forall k :: i <= k < receiveBuffer.Length ==> receiveBuffer[k] == 0
      {
        receiveBuffer[i] := datagram[i];
      }
      assert receiveBuffer[..] == Received(datagram);
      var nb := DecodeInt32(receiveBuffer[..]);
      nb := Int32.Wrap(nb + 1);
      reply := EncodeInt32(nb);
    }
  }
}

/** The Python UDP client: sends 300 as four little-endian bytes and reads
    the reply as an unsigned little-endian integer. */
module IncrementClient {
  import opened Wrappers
  import opened IntCodec
  import IncrementServer

  /** `(300).to_bytes(4, byteorder='little')`. */
  lemma RequestBytes()
    ensures ToBytes(300, 4) == Ok([0x2C, 0x01, 0x00, 0x00])
  {
    assert Pow256(4) == 0x1_0000_0000 by { Pow256Four(); }
    assert UnsignedBytes(0, 1) == [0x00];
    assert UnsignedBytes(0, 2) == [0x00, 0x00];
    assert UnsignedBytes(1, 3) == [0x01, 0x00, 0x00];
    assert UnsignedBytes(300, 4) == [0x2C, 0x01, 0x00, 0x00];
  }

  /** Against the server, the client prints 301. */
  lemma ClientReadsIncrement()
    ensures FromBytes(IncrementServer.Reply([0x2C, 0x01, 0x00, 0x00])) == 301
  {
    var d: seq<Byte> := [0x2C, 0x01, 0x00, 0x00];
    var received := IncrementServer.Received(d);
    assert received[..4] == d;
    assert DecodeInt32(received) == 300;
    var r := IncrementServer.Reply(d);
    assert DecodeInt32(r) == 301;
    EncodeDecode(r);
    assert r[..4] == r;
    Pow256Four();
  }

  /** For a 4-byte reply, the client's unsigned reading and the server's
      signed value agree modulo 2^32. */
  lemma UnsignedReadingOfSigned(b: seq<Byte>)
    requires |b| == 4
    ensures FromBytes(b) == (if DecodeInt32(b) < 0 then DecodeInt32(b) + 0x1_0000_0000 else DecodeInt32(b))
  {
    assert b[..4] == b;
    Pow256Four();
  }
}
