/**
 * CRC-32 as zlib.crc32 computes it and as the PNG Specification (ISO/IEC 15948,
 * Annex D) requires: reflected, generator polynomial 0xEDB88320, register preset
 * to all ones and complemented at the end.
 */
module Crc32 {
  import opened Bytes

  const Polynomial: bv32 := 0xEDB8_8320

  /** One bit of the reflected shift register. */
  function Shift(c: bv32): bv32 {
    if c & 1 == 1 then (c >> 1) ^ Polynomial else c >> 1
  }

  function Shifts(c: bv32, k: nat): bv32
    decreases k
  {
    if k == 0 then c else Shifts(Shift(c), k - 1)
  }

  /** Feeds one byte into the register. */
  function Step(c: bv32, b: byte): bv32 {
    Shifts(c ^ (b as bv32), 8)
  }

  /** Feeds the bytes of s, first to last, into a register updated by `step`. */
  function Fold(step: (bv32, byte) -> bv32, c: bv32, s: seq<byte>): bv32
    decreases |s|
  {
    if s == [] then c else Fold(step, step(c, s[0]), s[1..])
  }

  function Register(c: bv32, s: seq<byte>): bv32 {
    Fold(Step, c, s)
  }

  /** zlib.crc32(data, value): continues a CRC whose running value is `value`. */
  function Crc(data: seq<byte>, value: bv32): (crc: bv32)
    ensures data == [] ==> crc == value
  {
    !Register(!value, data)
  }

  /** The CRC of data on its own, zlib.crc32(data). */
  function Checksum(data: seq<byte>): (crc: bv32)
    ensures data == [] ==> crc == 0
  {
    Crc(data, 0)
  }

  /** Feeding a + b is feeding a, then b. */
  lemma {:induction false} FoldAppend(step: (bv32, byte) -> bv32, c: bv32, a: seq<byte>, b: seq<byte>)
    ensures Fold(step, Fold(step, c, a), b) == Fold(step, c, a + b)
    decreases |a|
  {
    if a == [] {
      assert a + b == b;
    } else {
      assert (a + b)[1..] == a[1..] + b;
      FoldAppend(step, step(c, a[0]), a[1..], b);
    }
  }

  /**
   * Passing a previous CRC as the running value continues it:
   * zlib.crc32(b, zlib.crc32(a)) == zlib.crc32(a + b).
   */
  lemma Incremental(a: seq<byte>, b: seq<byte>)
    ensures Crc(b, Checksum(a)) == Checksum(a + b)
  {
    Continue(a, b, 0);
  }

  /** The same for any running value v. */
  lemma Continue(a: seq<byte>, b: seq<byte>, v: bv32)
    ensures Crc(b, Crc(a, v)) == Crc(a + b, v)
  {
    calc {
      Crc(b, Crc(a, v));
      { CrcUnfold(b, Crc(a, v)); }
      !Register(!Crc(a, v), b);
      { ComplementCrc(a, v); }
      !Register(Register(!v, a), b);
      { FoldAppend(Step, !v, a, b); }
      !Register(!v, a + b);
      { CrcUnfold(a + b, v); }
      Crc(a + b, v);
    }
  }

  lemma CrcUnfold(s: seq<byte>, v: bv32)
    ensures Crc(s, v) == !Register(!v, s)
  {
  }

  /** Complementing a CRC gives back the register it was read from. */
  lemma ComplementCrc(a: seq<byte>, v: bv32)
    ensures !Crc(a, v) == Register(!v, a)
  {
    var r := Register(!v, a);
    assert !(!r) == r;
  }

  /** Folding four bytes through the registers c0, c1, c2, c3 ends in c4. */
  lemma FoldFour(step: (bv32, byte) -> bv32, c0: bv32, c1: bv32, c2: bv32, c3: bv32, c4: bv32, s: seq<byte>)
    requires |s| == 4
    requires step(c0, s[0]) == c1 && step(c1, s[1]) == c2 && step(c2, s[2]) == c3 && step(c3, s[3]) == c4
    ensures Fold(step, c0, s) == c4
  {
    assert Fold(step, c4, s[4..]) == c4;
    assert Fold(step, c3, s[3..]) == c4;
    assert Fold(step, c2, s[2..]) == c4;
    assert Fold(step, c1, s[1..]) == c4;
  }
}
