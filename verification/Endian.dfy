/** Bytes, and the little endian numbers of lib/endianrw.h:100-310. */
module Endian {

  type Byte = b: int | 0 <= b < 256

  /** `le_uint16_read`: the bytes do not overlap, so `|` and `<<` add. */
  function Read16(b: seq<Byte>, i: nat): (v: nat)
    requires i + 2 <= |b|
    ensures v < 0x1_0000
  {
    b[i] as int + 0x100 * b[i + 1] as int
  }

  /** `le_uint32_read` */
  function Read32(b: seq<Byte>, i: nat): (v: nat)
    requires i + 4 <= |b|
    ensures v < 0x1_0000_0000
  {
    Read16(b, i) + 0x1_0000 * Read16(b, i + 2)
  }

  /** What an 8-bit, a 16-bit and a 32-bit field keep of a number. */
  function Low8(v: nat): nat { if v < 0x100 then v else v % 0x100 }

  function Low16(v: nat): nat { if v < 0x1_0000 then v else v % 0x1_0000 }

  function Low32(v: nat): nat { if v < 0x1_0000_0000 then v else v % 0x1_0000_0000 }

  /** `le_uint8_write`: the number is truncated. */
  method Write8(buf: array<Byte>, at: nat, v: nat)
    requires at < buf.Length
    modifies buf
    ensures buf[..][at] == Low8(v)
    ensures forall k | 0 <= k < buf.Length && k != at :: buf[..][k] == old(buf[..][k])
  {
    buf[at] := v % 0x100;
  }

  /** `le_uint16_write` */
  method Write16(buf: array<Byte>, at: nat, v: nat)
    requires at + 2 <= buf.Length
    modifies buf
    ensures Read16(buf[..], at) == Low16(v)
    ensures forall k | 0 <= k < buf.Length && !(at <= k < at + 2) :: buf[..][k] == old(buf[..][k])
  {
    buf[at] := v % 0x100;
    buf[at + 1] := v / 0x100 % 0x100;
  }

  /** The two bytes of a number, lowest first. */
  lemma TwoDigits(v: nat)
    ensures v % 0x1_0000 == v % 0x100 + 0x100 * (v / 0x100 % 0x100)
  {
  }

  /** The four bytes of a number. */
  lemma Digits(v: nat)
    ensures v % 0x1_0000_0000 == v % 0x100 + 0x100 * (v / 0x100 % 0x100) +
                                 0x1_0000 * (v / 0x1_0000 % 0x100 + 0x100 * (v / 0x100_0000 % 0x100))
  {
    var high := v / 0x1_0000;
    TwoDigits(v);
    TwoDigits(high);
    assert high / 0x100 == v / 0x100_0000;
    assert v % 0x1_0000_0000 == v % 0x1_0000 + 0x1_0000 * (high % 0x1_0000);
  }

  /** `le_uint32_write` */
  method Write32(buf: array<Byte>, at: nat, v: nat)
    requires at + 4 <= buf.Length
    modifies buf
    ensures Read32(buf[..], at) == Low32(v)
    ensures forall k | 0 <= k < buf.Length && !(at <= k < at + 4) :: buf[..][k] == old(buf[..][k])
  {
    buf[at] := v % 0x100;
    buf[at + 1] := v / 0x100 % 0x100;
    buf[at + 2] := v / 0x1_0000 % 0x100;
    buf[at + 3] := v / 0x100_0000 % 0x100;
    Digits(v);
  }
}
