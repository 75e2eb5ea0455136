/** Bytes and the four-byte big-endian length word that opens a store file. */
module Bytes {

  /** One byte of a Go []byte or string. */
  type Byte = b: int | 0 <= b < 0x100

  const TwoTo32: int := 0x1_0000_0000

  /** Go's uint32(n) for a non-negative length: the low 32 bits. */
  function Uint32(n: nat): (r: nat)
    ensures r < TwoTo32
    ensures n < TwoTo32 ==> r == n
  {
    n % TwoTo32
  }

  /** binary.BigEndian.PutUint32: most significant byte first, each byte the value shifted right by 24, 16, 8 and 0 bits. */
  function BigEndian32(n: nat): (r: seq<Byte>)
    requires n < TwoTo32
    ensures |r| == 4
  {
    var s8 := n / 0x100;
    var s16 := s8 / 0x100;
    var s24 := s16 / 0x100;
    [s24, s16 % 0x100, s8 % 0x100, n % 0x100]
  }

  /** binary.BigEndian.Uint32: the reader's side of BigEndian32. */
  function FromBigEndian32(b: seq<Byte>): (n: nat)
    requires |b| == 4
    ensures n < TwoTo32
  {
    ((b[0] as int * 0x100 + b[1] as int) * 0x100 + b[2] as int) * 0x100 + b[3] as int
  }

  /** Dividing by 256 undoes appending a byte. */
  lemma ShiftByte(hi: nat, lo: Byte)
    ensures (hi * 0x100 + lo) / 0x100 == hi && (hi * 0x100 + lo) % 0x100 == lo
  {
  }

  lemma BigEndian32RoundTrip(n: nat)
    requires n < TwoTo32
    ensures FromBigEndian32(BigEndian32(n)) == n
  {
    var s8 := n / 0x100;
    var s16 := s8 / 0x100;
    assert n == s8 * 0x100 + n % 0x100;
    assert s8 == s16 * 0x100 + s8 % 0x100;
    assert s16 == (s16 / 0x100) * 0x100 + s16 % 0x100;
  }

  lemma FromBigEndian32RoundTrip(b: seq<Byte>)
    requires |b| == 4
    ensures BigEndian32(FromBigEndian32(b)) == b
  {
    var s16 := b[0] as int * 0x100 + b[1] as int;
    var s8 := s16 * 0x100 + b[2] as int;
    ShiftByte(s8, b[3]);
    ShiftByte(s16, b[2]);
    ShiftByte(b[0], b[1]);
  }
}
