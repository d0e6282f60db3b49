/** Fixed-width integers, byte strings and the result types shared by the other modules. */
module Machine {

  const TWO16: int := 0x1_0000
  const TWO32: int := 0x1_0000_0000
  const TWO64: int := 0x1_0000_0000_0000_0000

  type U8 = x: int | 0 <= x < 0x100
  type U16 = x: int | 0 <= x < 0x1_0000
  type U32 = x: int | 0 <= x < 0x1_0000_0000
  type U64 = x: int | 0 <= x < 0x1_0000_0000_0000_0000

  type Bytes = seq<U8>

  datatype Option<+T> = None | Some(value: T)

  /** Unsigned arithmetic in C and Go wraps around at the width of the type. */
  function Wrap16(x: int): U16 { x % TWO16 }

  function Wrap32(x: int): U32 { x % TWO32 }

  function Wrap64(x: int): U64 { x % TWO64 }

  lemma WrapSmall64(x: U64)
    ensures Wrap64(x) == x
  {
  }

  /** A sum may be wrapped at every addition or once at the end. */
  lemma WrapAdd64(x: int, y: int)
    ensures Wrap64(Wrap64(x) + y) == Wrap64(x + y)
  {
  }

  lemma WrapAdd32(x: int, y: int)
    ensures Wrap32(Wrap32(x) + y) == Wrap32(x + y)
  {
  }

  // Big-endian fields, as encoding/binary.BigEndian reads and writes them.

  function BE16(b: Bytes): U16
    requires |b| == 2
  {
    b[0] as int * 0x100 + b[1] as int
  }

  function BE32(b: Bytes): U32
    requires |b| == 4
  {
    BE16(b[..2]) as int * 0x1_0000 + BE16(b[2..]) as int
  }

  function BE64(b: Bytes): U64
    requires |b| == 8
  {
    BE32(b[..4]) as int * 0x1_0000_0000 + BE32(b[4..]) as int
  }

  /** The first octet weighs most. */
  lemma NetworkOrder(b: Bytes)
    ensures |b| == 2 ==> BE16(b) == b[0] as int * 0x100 + b[1] as int
    ensures |b| == 4 ==> BE32(b) == b[0] as int * 0x100_0000 + b[1] as int * 0x1_0000 + b[2] as int * 0x100 + b[3] as int
    ensures |b| == 8 ==> BE64(b) == BE32(b[..4]) as int * 0x1_0000_0000 + BE32(b[4..]) as int
  {
  }

  function PutBE16(x: U16): (b: Bytes)
    ensures |b| == 2 && BE16(b) == x
  {
    [x / 0x100, x % 0x100]
  }

  function PutBE32(x: U32): (b: Bytes)
    ensures |b| == 4 && BE32(b) == x
  {
    var hi, lo := PutBE16(x / 0x1_0000), PutBE16(x % 0x1_0000);
    assert (hi + lo)[..2] == hi && (hi + lo)[2..] == lo;
    hi + lo
  }

  function PutBE64(x: U64): (b: Bytes)
    ensures |b| == 8 && BE64(b) == x
  {
    var hi, lo := PutBE32(x / 0x1_0000_0000), PutBE32(x % 0x1_0000_0000);
    assert (hi + lo)[..4] == hi && (hi + lo)[4..] == lo;
    hi + lo
  }

  lemma PutBE16Inverse(b: Bytes)
    requires |b| == 2
    ensures PutBE16(BE16(b)) == b
  {
  }

  lemma PutBE32Inverse(b: Bytes)
    requires |b| == 4
    ensures PutBE32(BE32(b)) == b
  {
    hide PutBE16, BE16;
    PutBE16Inverse(b[..2]);
    PutBE16Inverse(b[2..]);
    SplitAt16(BE16(b[..2]), BE16(b[2..]));
    assert b == b[..2] + b[2..];
  }

  lemma SplitAt16(hi: U16, lo: U16)
    ensures (hi * 0x1_0000 + lo) / 0x1_0000 == hi
    ensures (hi * 0x1_0000 + lo) % 0x1_0000 == lo
  {
  }

  lemma SplitAt32(hi: U32, lo: U32)
    ensures (hi * 0x1_0000_0000 + lo) / 0x1_0000_0000 == hi
    ensures (hi * 0x1_0000_0000 + lo) % 0x1_0000_0000 == lo
  {
  }

  lemma PutBE64Inverse(b: Bytes)
    requires |b| == 8
    ensures PutBE64(BE64(b)) == b
  {
    hide PutBE32, BE32;
    PutBE32Inverse(b[..4]);
    PutBE32Inverse(b[4..]);
    SplitAt32(BE32(b[..4]), BE32(b[4..]));
    assert b == b[..4] + b[4..];
  }
}
