/**
 * Big-endian encoding of 32-bit fields (`htobe32` / `be32toh` followed by
 * a byte-wise write or read).
 */
module BigEndian {
  import opened FixedWidth

  /** `be32toh` applied to four bytes read from a file. */
  function Decode32(b: seq<uint8>): (x: uint32)
    requires |b| == 4
  {
    var hi: int := b[0] as int * 0x100 + b[1] as int;
    var lo: int := b[2] as int * 0x100 + b[3] as int;
    hi * 0x1_0000 + lo
  }

  /** The four bytes `htobe32(x)` lays out in memory, most significant first. */
  function Encode32(x: uint32): (b: seq<uint8>)
    ensures |b| == 4
    ensures Decode32(b) == x
  {
    var hi := x / 0x1_0000;
    var lo := x % 0x1_0000;
    [hi / 0x100, hi % 0x100, lo / 0x100, lo % 0x100]
  }

  /** Every four-byte string is the encoding of exactly the value it decodes to. */
  lemma Encode32Decode32(b: seq<uint8>)
    requires |b| == 4
    ensures Encode32(Decode32(b)) == b
  {
    var hi: int := b[0] as int * 0x100 + b[1] as int;
    var lo: int := b[2] as int * 0x100 + b[3] as int;
    var x := Decode32(b);
    assert x / 0x1_0000 == hi && x % 0x1_0000 == lo;
    assert hi / 0x100 == b[0] && hi % 0x100 == b[1];
    assert lo / 0x100 == b[2] && lo % 0x100 == b[3];
  }
}
