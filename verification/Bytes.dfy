/**
  Bytes, little-endian 32-bit words, and the AND-programming of NOR flash.
  Everything above works on `seq<byte>`; only this module and `Status` look inside a byte.
*/
module Bytes {

  newtype byte = x: int | 0 <= x < 256

  const ERASED: byte := 0xFF
  const U32_LIMIT: nat := 0x1_0000_0000
  /** FDB_DATA_UNUSED and FAILED_ADDR are this one word. */
  const UNUSED_WORD: nat := 0xFFFF_FFFF

  /** A run of erased bytes. */
  function Ones(n: nat): (r: seq<byte>)
    ensures |r| == n && forall i :: 0 <= i < n ==> r[i] == ERASED
  {
    seq(n, _ => ERASED)
  }

  /** The bytes of a 32-bit word, least significant first. */
  function U32(n: nat): (r: seq<byte>)
    requires n < U32_LIMIT
    ensures |r| == 4
  {
    [(n % 256) as byte, (n / 256 % 256) as byte, (n / 65536 % 256) as byte, (n / 16777216) as byte]
  }

  function FromU32(b: seq<byte>): (n: nat)
    requires |b| == 4
    ensures n < U32_LIMIT
  {
    b[0] as nat + 256 * (b[1] as nat) + 65536 * (b[2] as nat) + 16777216 * (b[3] as nat)
  }

  lemma FromU32OfU32(n: nat)
    requires n < U32_LIMIT
    ensures FromU32(U32(n)) == n
  {
    var h1, h2 := n / 256, n / 256 / 256;
    assert n / 65536 == h2 && n / 16777216 == h2 / 256;
    assert n == n % 256 + 256 * h1 && h1 == h1 % 256 + 256 * h2 && h2 == h2 % 256 + 256 * (h2 / 256);
  }

  /** Base-256 digits are unique. */
  lemma DigitsUnique(a0: byte, a1: nat, b0: byte, b1: nat)
    requires a0 as nat + 256 * a1 == b0 as nat + 256 * b1
    ensures a0 == b0 && a1 == b1
  {
  }

  /** Decoding is injective, so equal words are equal byte for byte. */
  lemma FromU32Injective(a: seq<byte>, b: seq<byte>)
    requires |a| == 4 && |b| == 4 && FromU32(a) == FromU32(b)
    ensures a == b
  {
    var a2, b2 := a[2] as nat + 256 * (a[3] as nat), b[2] as nat + 256 * (b[3] as nat);
    DigitsUnique(a[0], a[1] as nat + 256 * a2, b[0], b[1] as nat + 256 * b2);
    DigitsUnique(a[1], a2, b[1], b2);
    DigitsUnique(a[2], a[3] as nat, b[2], b[3] as nat);
  }

  /** A slice of a slice. */
  lemma SubSlice(b: seq<byte>, o: nat, n: nat, i: nat, j: nat)
    requires i <= j <= n && o + n <= |b|
    ensures b[o..o + n][i..j] == b[o + i..o + j]
  {
    var s := b[o..o + n];
    assert forall k :: 0 <= k < j - i ==> s[i..j][k] == s[i + k] == b[o + i + k];
    assert |s[i..j]| == |b[o + i..o + j]|;
  }

  /** A byte as the bits it is made of, and back. */
  function Bits(b: byte): bv8 {
    b as bv8
  }

  function OfBits(v: bv8): byte {
    v as byte
  }

  function Meet(v: bv8, w: bv8): bv8 {
    v & w
  }

  lemma ByteOfBits(v: bv8)
    ensures Bits(OfBits(v)) == v
  {
  }

  /**
    Bitwise AND of two bytes: what programming `b` over `a` leaves. With an erased side it is the
    other one; `AndBits` confirms that the bits are the AND in every case.
  */
  function And(a: byte, b: byte): byte {
    if a == ERASED then b else if b == ERASED then a else OfBits(Meet(Bits(a), Bits(b)))
  }

  lemma ErasedBits()
    ensures Bits(ERASED) == 0xFF
  {
  }

  lemma MeetErased(v: bv8)
    ensures Meet(0xFF, v) == v && Meet(v, 0xFF) == v
  {
  }

  lemma AndErased(b: byte)
    ensures And(ERASED, b) == b && And(b, ERASED) == b
  {
    hide Bits, OfBits, Meet;
  }

  /** What programming `data` at `off` leaves in `mem`. */
  function Program(mem: seq<byte>, off: nat, data: seq<byte>): (r: seq<byte>)
    requires off + |data| <= |mem|
    ensures |r| == |mem|
    ensures forall i :: 0 <= i < |mem| ==>
              r[i] == if off <= i < off + |data| then And(mem[i], data[i - off]) else mem[i]
  {
    seq(|mem|, i requires 0 <= i < |mem| => if off <= i < off + |data| then And(mem[i], data[i - off]) else mem[i])
  }

  /** NOR discipline: on erased bytes the AND-write reads back as written and touches nothing else. */
  lemma ProgramErased(mem: seq<byte>, off: nat, data: seq<byte>)
    requires off + |data| <= |mem|
    requires forall i :: off <= i < off + |data| ==> mem[i] == ERASED
    ensures Program(mem, off, data) == mem[..off] + data + mem[off + |data|..]
  {
    var r := Program(mem, off, data);
    forall i | off <= i < off + |data| ensures r[i] == data[i - off] {
      AndErased(data[i - off]);
    }
  }

  lemma AndBits(a: byte, b: byte)
    ensures Bits(And(a, b)) == Meet(Bits(a), Bits(b))
  {
    hide Bits, OfBits, Meet;
    ErasedBits();
    MeetErased(Bits(a));
    MeetErased(Bits(b));
    ByteOfBits(Meet(Bits(a), Bits(b)));
  }

  lemma MeetAbsorbs(v: bv8, w: bv8)
    ensures Meet(v, Meet(v, w)) == Meet(v, w) && Meet(v, v) == v
  {
  }

  /** Programming never sets a bit: what was clear before is clear afterwards. */
  lemma ProgramOnlyClears(mem: seq<byte>, off: nat, data: seq<byte>, i: nat)
    requires off + |data| <= |mem| && i < |mem|
    ensures var r := Program(mem, off, data)[i]; Meet(Bits(mem[i]), Bits(r)) == Bits(r)
  {
    hide Bits, OfBits, Meet, And;
    if off <= i < off + |data| {
      AndBits(mem[i], data[i - off]);
      MeetAbsorbs(Bits(mem[i]), Bits(data[i - off]));
    } else {
      MeetAbsorbs(Bits(mem[i]), Bits(mem[i]));
    }
  }
}
