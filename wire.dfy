/** Fixed-width integers of the protocol, the operation codes, the message
    record and the payload codec that stands in for the protobuf message. */
module Wire {

  /** One octet of a socket stream. */
  type byte = x: int | 0 <= x < 0x100

  const TWO_32: int := 0x1_0000_0000
  const TWO_64: int := 0x1_0000_0000_0000_0000

  type Int32 = x: int | -0x8000_0000 <= x < 0x8000_0000
  type Int64 = x: int | -0x8000_0000_0000_0000 <= x < 0x8000_0000_0000_0000

  // Client -> server
  const OPERATION_ADD: Int32 := 1
  const OPERATION_SUB: Int32 := 2
  const OPERATION_TERMINATION: Int32 := 3
  // Server -> client
  const OPERATION_COUNTER: Int32 := 4

  datatype Option<T> = None | Some(value: T)

  /** What `sockets::message` carries: an operation type and a 64-bit operand. */
  datatype Message = Message(opType: Int32, argument: Int64)

  /** Two's-complement narrowing to 32 bits (an `int64_t` stored in an `int`):
      the one Int32 congruent to `x` modulo 2^32. */
  function Wrap32(x: int): (r: Int32)
    ensures (r - x) % TWO_32 == 0
    ensures r == x <==> -0x8000_0000 <= x < 0x8000_0000
  {
    (x + 0x8000_0000) % TWO_32 - 0x8000_0000
  }

  /** Two's-complement wrap-around of 64-bit arithmetic (what
      `std::atomic<int64_t>::fetch_add` does on overflow). */
  function Wrap64(x: int): (r: Int64)
    ensures (r - x) % TWO_64 == 0
    ensures r == x <==> -0x8000_0000_0000_0000 <= x < 0x8000_0000_0000_0000
  {
    (x + 0x8000_0000_0000_0000) % TWO_64 - 0x8000_0000_0000_0000
  }

  /** Adding to an already wrapped value wraps the same as adding to the
      unwrapped one: a chain of fetch_adds ends where one big add would. */
  lemma WrapAdd64(a: int, b: int)
    ensures Wrap64(Wrap64(a) + b) == Wrap64(a + b)
  {
    var q := (a + 0x8000_0000_0000_0000) / TWO_64;
    assert Wrap64(a) == a - q * TWO_64;
    var x := a + b;
    var y := x - q * TWO_64;
    assert (y + 0x8000_0000_0000_0000) % TWO_64 == (x + 0x8000_0000_0000_0000) % TWO_64 by {
      ShiftMod64(x + 0x8000_0000_0000_0000, -q);
    }
  }

  lemma ShiftMod64(x: int, q: int)
    ensures (x + q * TWO_64) % TWO_64 == x % TWO_64
  {
  }

  // ---------------------------------------------------------------------
  // Payload codec. The protobuf schema of `sockets::message` is not part of
  // this model; in its place the payload is the fixed 12-byte layout
  // kind:uint32 || argument:int64, both big-endian, two's complement.

  function Pow256(k: nat): (p: nat)
    ensures p >= 1
  {
    if k == 0 then 1 else 256 * Pow256(k - 1)
  }

  lemma Pow256Values()
    ensures Pow256(4) == TWO_32 && Pow256(8) == TWO_64
  {
    assert Pow256(1) == 0x100;
    assert Pow256(2) == 0x1_0000;
    assert Pow256(3) == 0x100_0000;
    assert Pow256(4) == 0x1_0000_0000;
    assert Pow256(5) == 0x100_0000_0000;
    assert Pow256(6) == 0x1_0000_0000_0000;
    assert Pow256(7) == 0x100_0000_0000_0000;
  }

  /** The `k` low-order octets of `x`, most significant first. */
  function BigEndian(x: nat, k: nat): (s: seq<byte>)
    requires x < Pow256(k)
    ensures |s| == k
  {
    if k == 0 then [] else BigEndian(x / 256, k - 1) + [x % 256]
  }

  /** The unsigned value of a big-endian octet string. */
  function FromBigEndian(s: seq<byte>): (x: nat)
    ensures x < Pow256(|s|)
  {
    if s == [] then 0 else FromBigEndian(s[..|s| - 1]) * 256 + s[|s| - 1]
  }

  lemma {:induction false} FromBigEndianInverse(x: nat, k: nat)
    requires x < Pow256(k)
    ensures FromBigEndian(BigEndian(x, k)) == x
  {
    if k > 0 {
      var s := BigEndian(x, k);
      assert s[..|s| - 1] == BigEndian(x / 256, k - 1);
      FromBigEndianInverse(x / 256, k - 1);
    }
  }

  function Serialize(m: Message): (p: seq<byte>)
    ensures |p| == 12
  {
    Pow256Values();
    BigEndian(m.opType % TWO_32, 4) + BigEndian(m.argument % TWO_64, 8)
  }

  /** `None` when the octets are not a message (here: not exactly 12 of them). */
  function Parse(p: seq<byte>): Option<Message>
  {
    if |p| != 12 then None
    else Some(Message(Wrap32(FromBigEndian(p[..4])), Wrap64(FromBigEndian(p[4..]))))
  }

  /** Reading back the unsigned encoding of a signed value gives the value. */
  lemma Wrap32Unsigned(x: Int32)
    ensures Wrap32(x % TWO_32) == x
  {
  }

  lemma Wrap64Unsigned(x: Int64)
    ensures Wrap64(x % TWO_64) == x
  {
  }

  /** The codec round-trips every message, boundary operands included. */
  lemma ParseSerialize(m: Message)
    ensures Parse(Serialize(m)) == Some(m)
  {
    Pow256Values();
    var hi := BigEndian(m.opType % TWO_32, 4);
    var lo := BigEndian(m.argument % TWO_64, 8);
    var p := Serialize(m);
    assert p[..4] == hi && p[4..] == lo;
    FromBigEndianInverse(m.opType % TWO_32, 4);
    FromBigEndianInverse(m.argument % TWO_64, 8);
    Wrap32Unsigned(m.opType);
    Wrap64Unsigned(m.argument);
  }
}
