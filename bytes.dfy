/**
 * Bytes and unsigned 32-bit words, and the big-endian packing that Python's
 * struct module performs for the format "!I".
 */
module Bytes {
  import opened Wrappers

  type byte = x: int | 0 <= x < 0x100
  type u32 = x: int | 0 <= x < 0x1_0000_0000

  predicate InU32(n: int) { 0 <= n < 0x1_0000_0000 }

  /** Network byte order (most significant byte first). */
  function Be32(n: u32): (r: seq<byte>)
    ensures |r| == 4
  {
    [n / 0x100_0000, (n / 0x1_0000) % 0x100, (n / 0x100) % 0x100, n % 0x100]
  }

  /** The word that four bytes in network order denote. */
  function FromBe32(s: seq<byte>): (n: u32)
    requires |s| == 4
  {
    (s[0] as int) * 0x100_0000 + (s[1] as int) * 0x1_0000 + (s[2] as int) * 0x100 + s[3] as int
  }

  /** struct.pack("!I", n): raises struct.error when n does not fit in 32 unsigned bits. */
  function PackU32(n: int): (r: Option<seq<byte>>)
    ensures r.Some? <==> InU32(n)
    ensures r.Some? ==> |r.value| == 4 && FromBe32(r.value) == n
  {
    if InU32(n) then (Be32RoundTrip(n); Some(Be32(n))) else None
  }

  lemma Be32RoundTrip(n: u32)
    ensures FromBe32(Be32(n)) == n
  {
    var q := n / 0x100;
    assert n == q * 0x100 + n % 0x100;
    var q2 := q / 0x100;
    assert q == q2 * 0x100 + q % 0x100;
    assert (n / 0x1_0000) == q2;
    assert n / 0x100_0000 == q2 / 0x100;
  }

  lemma FromBe32RoundTrip(s: seq<byte>)
    requires |s| == 4
    ensures Be32(FromBe32(s)) == s
  {
    var lo := (s[2] as int) * 0x100 + s[3] as int;
    var hi := (s[0] as int) * 0x100 + s[1] as int;
    var n := FromBe32(s);
    assert n == hi * 0x1_0000 + lo;
    assert n / 0x1_0000 == hi && n % 0x1_0000 == lo;
    assert n / 0x100_0000 == s[0] by { assert n / 0x100_0000 == hi / 0x100; }
    assert (n / 0x1_0000) % 0x100 == s[1];
    assert n / 0x100 == hi * 0x100 + s[2];
    assert (n / 0x100) % 0x100 == s[2];
  }

  /** Two words with equal encodings are equal: the encoding loses nothing. */
  lemma Be32Injective(m: u32, n: u32)
    requires Be32(m) == Be32(n)
    ensures m == n
  {
    Be32RoundTrip(m);
    Be32RoundTrip(n);
  }
}
