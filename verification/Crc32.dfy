/**
  `fdb_calc_crc32`: the table-driven CRC-32, against the bit-serial definition of section 8 of
  RFC 1952 (reflected polynomial 0xEDB88320, register complemented before and after).
*/
module Crc32 {
  import opened Bytes

  // crc32_table, sixteen entries a row
  const ROW_0: seq<bv32> := [
    0x00000000, 0x77073096, 0xEE0E612C, 0x990951BA, 0x076DC419, 0x706AF48F, 0xE963A535, 0x9E6495A3,
    0x0EDB8832, 0x79DCB8A4, 0xE0D5E91E, 0x97D2D988, 0x09B64C2B, 0x7EB17CBD, 0xE7B82D07, 0x90BF1D91]
  const ROW_1: seq<bv32> := [
    0x1DB71064, 0x6AB020F2, 0xF3B97148, 0x84BE41DE, 0x1ADAD47D, 0x6DDDE4EB, 0xF4D4B551, 0x83D385C7,
    0x136C9856, 0x646BA8C0, 0xFD62F97A, 0x8A65C9EC, 0x14015C4F, 0x63066CD9, 0xFA0F3D63, 0x8D080DF5]
  const ROW_2: seq<bv32> := [
    0x3B6E20C8, 0x4C69105E, 0xD56041E4, 0xA2677172, 0x3C03E4D1, 0x4B04D447, 0xD20D85FD, 0xA50AB56B,
    0x35B5A8FA, 0x42B2986C, 0xDBBBC9D6, 0xACBCF940, 0x32D86CE3, 0x45DF5C75, 0xDCD60DCF, 0xABD13D59]
  const ROW_3: seq<bv32> := [
    0x26D930AC, 0x51DE003A, 0xC8D75180, 0xBFD06116, 0x21B4F4B5, 0x56B3C423, 0xCFBA9599, 0xB8BDA50F,
    0x2802B89E, 0x5F058808, 0xC60CD9B2, 0xB10BE924, 0x2F6F7C87, 0x58684C11, 0xC1611DAB, 0xB6662D3D]
  const ROW_4: seq<bv32> := [
    0x76DC4190, 0x01DB7106, 0x98D220BC, 0xEFD5102A, 0x71B18589, 0x06B6B51F, 0x9FBFE4A5, 0xE8B8D433,
    0x7807C9A2, 0x0F00F934, 0x9609A88E, 0xE10E9818, 0x7F6A0DBB, 0x086D3D2D, 0x91646C97, 0xE6635C01]
  const ROW_5: seq<bv32> := [
    0x6B6B51F4, 0x1C6C6162, 0x856530D8, 0xF262004E, 0x6C0695ED, 0x1B01A57B, 0x8208F4C1, 0xF50FC457,
    0x65B0D9C6, 0x12B7E950, 0x8BBEB8EA, 0xFCB9887C, 0x62DD1DDF, 0x15DA2D49, 0x8CD37CF3, 0xFBD44C65]
  const ROW_6: seq<bv32> := [
    0x4DB26158, 0x3AB551CE, 0xA3BC0074, 0xD4BB30E2, 0x4ADFA541, 0x3DD895D7, 0xA4D1C46D, 0xD3D6F4FB,
    0x4369E96A, 0x346ED9FC, 0xAD678846, 0xDA60B8D0, 0x44042D73, 0x33031DE5, 0xAA0A4C5F, 0xDD0D7CC9]
  const ROW_7: seq<bv32> := [
    0x5005713C, 0x270241AA, 0xBE0B1010, 0xC90C2086, 0x5768B525, 0x206F85B3, 0xB966D409, 0xCE61E49F,
    0x5EDEF90E, 0x29D9C998, 0xB0D09822, 0xC7D7A8B4, 0x59B33D17, 0x2EB40D81, 0xB7BD5C3B, 0xC0BA6CAD]
  const ROW_8: seq<bv32> := [
    0xEDB88320, 0x9ABFB3B6, 0x03B6E20C, 0x74B1D29A, 0xEAD54739, 0x9DD277AF, 0x04DB2615, 0x73DC1683,
    0xE3630B12, 0x94643B84, 0x0D6D6A3E, 0x7A6A5AA8, 0xE40ECF0B, 0x9309FF9D, 0x0A00AE27, 0x7D079EB1]
  const ROW_9: seq<bv32> := [
    0xF00F9344, 0x8708A3D2, 0x1E01F268, 0x6906C2FE, 0xF762575D, 0x806567CB, 0x196C3671, 0x6E6B06E7,
    0xFED41B76, 0x89D32BE0, 0x10DA7A5A, 0x67DD4ACC, 0xF9B9DF6F, 0x8EBEEFF9, 0x17B7BE43, 0x60B08ED5]
  const ROW_A: seq<bv32> := [
    0xD6D6A3E8, 0xA1D1937E, 0x38D8C2C4, 0x4FDFF252, 0xD1BB67F1, 0xA6BC5767, 0x3FB506DD, 0x48B2364B,
    0xD80D2BDA, 0xAF0A1B4C, 0x36034AF6, 0x41047A60, 0xDF60EFC3, 0xA867DF55, 0x316E8EEF, 0x4669BE79]
  const ROW_B: seq<bv32> := [
    0xCB61B38C, 0xBC66831A, 0x256FD2A0, 0x5268E236, 0xCC0C7795, 0xBB0B4703, 0x220216B9, 0x5505262F,
    0xC5BA3BBE, 0xB2BD0B28, 0x2BB45A92, 0x5CB36A04, 0xC2D7FFA7, 0xB5D0CF31, 0x2CD99E8B, 0x5BDEAE1D]
  const ROW_C: seq<bv32> := [
    0x9B64C2B0, 0xEC63F226, 0x756AA39C, 0x026D930A, 0x9C0906A9, 0xEB0E363F, 0x72076785, 0x05005713,
    0x95BF4A82, 0xE2B87A14, 0x7BB12BAE, 0x0CB61B38, 0x92D28E9B, 0xE5D5BE0D, 0x7CDCEFB7, 0x0BDBDF21]
  const ROW_D: seq<bv32> := [
    0x86D3D2D4, 0xF1D4E242, 0x68DDB3F8, 0x1FDA836E, 0x81BE16CD, 0xF6B9265B, 0x6FB077E1, 0x18B74777,
    0x88085AE6, 0xFF0F6A70, 0x66063BCA, 0x11010B5C, 0x8F659EFF, 0xF862AE69, 0x616BFFD3, 0x166CCF45]
  const ROW_E: seq<bv32> := [
    0xA00AE278, 0xD70DD2EE, 0x4E048354, 0x3903B3C2, 0xA7672661, 0xD06016F7, 0x4969474D, 0x3E6E77DB,
    0xAED16A4A, 0xD9D65ADC, 0x40DF0B66, 0x37D83BF0, 0xA9BCAE53, 0xDEBB9EC5, 0x47B2CF7F, 0x30B5FFE9]
  const ROW_F: seq<bv32> := [
    0xBDBDF21C, 0xCABAC28A, 0x53B39330, 0x24B4A3A6, 0xBAD03605, 0xCDD70693, 0x54DE5729, 0x23D967BF,
    0xB3667A2E, 0xC4614AB8, 0x5D681B02, 0x2A6F2B94, 0xB40BBE37, 0xC30C8EA1, 0x5A05DF1B, 0x2D02EF8D]

  const ROWS: seq<seq<bv32>> := [
    ROW_0, ROW_1, ROW_2, ROW_3, ROW_4, ROW_5, ROW_6, ROW_7,
    ROW_8, ROW_9, ROW_A, ROW_B, ROW_C, ROW_D, ROW_E, ROW_F]

  /** The entry for a byte value, found by the two halves of its index. */
  function Table(x: bv8): bv32 {
    HalvesInRange(x);
    ROWS[(x >> 4) as nat][(x & 0xF) as nat]
  }

  lemma Halves(x: bv8)
    ensures x >> 4 < 16 && x & 0xF < 16 && ((x >> 4) as bv32 << 4) | ((x & 0xF) as bv32) == x as bv32
  {
  }

  lemma NibbleIndex(c: bv8)
    requires c < 16
    ensures (c as nat) < 16
  {
  }

  lemma HalvesInRange(x: bv8)
    ensures ((x >> 4) as nat) < 16 && ((x & 0xF) as nat) < 16
  {
    Halves(x);
    NibbleIndex(x >> 4);
    NibbleIndex(x & 0xF);
  }

  const POLYNOMIAL: bv32 := 0xEDB88320

  /** One bit of the shift register. */
  function ShiftBit(c: bv32): bv32 {
    if c & 1 == 1 then POLYNOMIAL ^ (c >> 1) else c >> 1
  }

  function ShiftTwice(c: bv32): bv32 {
    ShiftBit(ShiftBit(c))
  }

  function ShiftFour(c: bv32): bv32 {
    ShiftTwice(ShiftTwice(c))
  }

  function ShiftByte(c: bv32): bv32 {
    ShiftFour(ShiftFour(c))
  }

  function Word(b: byte): bv32 {
    Word8(b as bv8)
  }

  /** One byte into the register, bit by bit. */
  function Feed(c: bv32, b: byte): bv32 {
    ShiftByte(Xor(c, Word(b)))
  }

  /** The same step as the code takes it, by table lookup. */
  function Lookup(c: bv32, b: byte): bv32 {
    Xor(Table(LowByte(Xor(c, Word(b)))), High(c))
  }

  function High(c: bv32): bv32 {
    c >> 8
  }

  function LowByte(c: bv32): bv8 {
    (c & 0xFF) as bv8
  }

  function Fold<A, B>(f: (A, B) -> A, a: A, s: seq<B>): A {
    if s == [] then a else f(Fold(f, a, s[..|s| - 1]), s[|s| - 1])
  }

  /** CRC-32 continued from an earlier value; 0 starts a new one. */
  function Continue(crc: bv32, s: seq<byte>): bv32 {
    Complemented(Feed, crc, s)
  }

  function Complemented(f: (bv32, byte) -> bv32, crc: bv32, s: seq<byte>): bv32 {
    Flip(Fold(f, Flip(crc), s))
  }

  function Flip(c: bv32): bv32 {
    c ^ 0xFFFFFFFF
  }

  lemma FlipTwice(c: bv32)
    ensures Flip(Flip(c)) == c
  {
  }

  function Xor(a: bv32, b: bv32): bv32 {
    a ^ b
  }

  function Crc(s: seq<byte>): bv32 {
    Continue(0, s)
  }

  /** `fdb_calc_crc32` */
  method CalcCrc32(crc: bv32, buf: seq<byte>) returns (r: bv32)
    ensures r == Continue(crc, buf)
  {
    r := Flip(crc);
    var p := 0;
    while p < |buf|
      invariant 0 <= p <= |buf|
      invariant r == Fold(Feed, Flip(crc), buf[..p])
    {
      FoldNext(Feed, Flip(crc), buf, p);
      LookupIsFeed(r, buf[p]);
      r := Lookup(r, buf[p]);
      p := p + 1;
    }
    assert buf[..p] == buf;
    r := Flip(r);
  }

  lemma FoldNext<A, B>(f: (A, B) -> A, a: A, s: seq<B>, p: nat)
    requires p < |s|
    ensures Fold(f, a, s[..p + 1]) == f(Fold(f, a, s[..p]), s[p])
  {
    assert s[..p + 1][..p] == s[..p];
  }

  lemma {:induction false} FoldSplit<A, B>(f: (A, B) -> A, c: A, a: seq<B>, b: seq<B>)
    ensures Fold(f, c, a + b) == Fold(f, Fold(f, c, a), b)
  {
    if b == [] {
      assert a + b == a;
    } else {
      assert (a + b)[..|a + b| - 1] == a + b[..|b| - 1];
      FoldSplit(f, c, a, b[..|b| - 1]);
    }
  }

  lemma ComplementedSplit(f: (bv32, byte) -> bv32, crc: bv32, a: seq<byte>, b: seq<byte>)
    ensures Complemented(f, Complemented(f, crc, a), b) == Complemented(f, crc, a + b)
  {
    FoldSplit(f, Flip(crc), a, b);
    FlipTwice(Fold(f, Flip(crc), a));
  }

  /** Chaining: the CRC of a split equals the CRC of the whole, wherever it is split. */
  lemma ContinueSplit(crc: bv32, a: seq<byte>, b: seq<byte>)
    ensures Continue(Continue(crc, a), b) == Continue(crc, a + b)
  {
    ComplementedSplit(Feed, crc, a, b);
  }

  lemma ContinueNothing(crc: bv32)
    ensures Continue(crc, []) == crc
  {
    FlipTwice(crc);
  }

  // ----- one table step is eight register steps -----

  lemma LowByteOff(h: bv32)
    requires h & 0xFF == 0
    ensures ShiftByte(h) == High(h)
  {
  }

  lemma XorParts(a: bv32, b: bv32)
    ensures (a ^ b) & 1 == (a & 1) ^ (b & 1) && (a ^ b) >> 1 == (a >> 1) ^ (b >> 1)
    ensures a & 1 == 0 || a & 1 == 1
  {
  }

  lemma XorMoves(p: bv32, x: bv32, y: bv32)
    ensures (p ^ x) ^ (p ^ y) == x ^ y && (p ^ x) ^ y == p ^ (x ^ y) && x ^ (p ^ y) == p ^ (x ^ y)
  {
  }

  lemma ShiftBitLinear(a: bv32, b: bv32)
    ensures ShiftBit(a ^ b) == ShiftBit(a) ^ ShiftBit(b)
  {
    XorParts(a, b);
    XorParts(b, a);
    XorMoves(POLYNOMIAL, a >> 1, b >> 1);
  }

  ghost predicate Linear(f: bv32 -> bv32) {
    forall a, b :: f(Xor(a, b)) == Xor(f(a), f(b))
  }

  lemma TwiceLinear(f: bv32 -> bv32, g: bv32 -> bv32)
    requires Linear(f) && forall c :: g(c) == f(f(c))
    ensures Linear(g)
  {
    hide Xor;
    forall a, b ensures g(Xor(a, b)) == Xor(g(a), g(b)) {
      assert f(Xor(a, b)) == Xor(f(a), f(b));
      assert f(Xor(f(a), f(b))) == Xor(f(f(a)), f(f(b)));
    }
  }

  lemma ShiftBitIsLinear()
    ensures Linear(ShiftBit)
  {
    forall x, y ensures ShiftBit(Xor(x, y)) == Xor(ShiftBit(x), ShiftBit(y)) {
      ShiftBitLinear(x, y);
    }
  }

  lemma ShiftByteIsLinear()
    ensures Linear(ShiftByte)
  {
    ShiftBitIsLinear();
    TwiceLinear(ShiftBit, ShiftTwice);
    TwiceLinear(ShiftTwice, ShiftFour);
    TwiceLinear(ShiftFour, ShiftByte);
  }

  lemma SplitLowByte(x: bv32)
    ensures x == Xor(Word8(LowByte(x)), HighBytes(x))
    ensures High(HighBytes(x)) == High(x) && HighBytes(x) & 0xFF == 0
  {
  }

  function Word8(b: bv8): bv32 {
    b as bv32
  }

  function HighBytes(x: bv32): bv32 {
    x & 0xFFFFFF00
  }

  lemma HighBitsIgnoreByte(c: bv32, b: bv8)
    ensures High(Xor(c, Word8(b))) == High(c)
  {
  }

  /** All the step uses of the register: it is linear and it moves the high bytes down. */
  lemma OneStep(t: bv8 -> bv32, f: bv32 -> bv32, x: bv32)
    requires Linear(f)
    requires forall i :: t(i) == f(Word8(i))
    requires forall h: bv32 :: h & 0xFF == 0 ==> f(h) == High(h)
    ensures Xor(t(LowByte(x)), High(x)) == f(x)
  {
    SplitLowByte(x);
    assert f(Xor(Word8(LowByte(x)), HighBytes(x))) == Xor(f(Word8(LowByte(x))), f(HighBytes(x)));
  }

  lemma LookupIsFeed(c: bv32, b: byte)
    ensures Lookup(c, b) == Feed(c, b)
  {
    HighBitsIgnoreByte(c, b as bv8);
    ShiftByteIsLinear();
    forall x ensures Table(x) == ShiftByte(Word8(x)) { TableEntry(x); }
    forall h: bv32 | h & 0xFF == 0 ensures ShiftByte(h) == High(h) { LowByteOff(h); }
    OneStep(Table, ShiftByte, Xor(c, Word(b)));
  }

  // ----- the table holds what the register computes -----

  lemma Row0(c: bv8)
    requires c < 16
    ensures (c as nat) < 16 && ROW_0[c as nat] == ShiftByte(0x00 | (c as bv32))
  {
    if c == 0 {} else if c == 1 {} else if c == 2 {} else if c == 3 {} else if c == 4 {} else if c == 5 {}
        else if c == 6 {} else if c == 7 {}
    else if c == 8 {} else if c == 9 {} else if c == 10 {} else if c == 11 {} else if c == 12 {} else if c == 13 {}
             else if c == 14 {} else {}
  }

  lemma Row1(c: bv8)
    requires c < 16
    ensures (c as nat) < 16 && ROW_1[c as nat] == ShiftByte(0x10 | (c as bv32))
  {
    if c == 0 {} else if c == 1 {} else if c == 2 {} else if c == 3 {} else if c == 4 {} else if c == 5 {}
        else if c == 6 {} else if c == 7 {}
    else if c == 8 {} else if c == 9 {} else if c == 10 {} else if c == 11 {} else if c == 12 {} else if c == 13 {}
             else if c == 14 {} else {}
  }

  lemma Row2(c: bv8)
    requires c < 16
    ensures (c as nat) < 16 && ROW_2[c as nat] == ShiftByte(0x20 | (c as bv32))
  {
    if c == 0 {} else if c == 1 {} else if c == 2 {} else if c == 3 {} else if c == 4 {} else if c == 5 {}
        else if c == 6 {} else if c == 7 {}
    else if c == 8 {} else if c == 9 {} else if c == 10 {} else if c == 11 {} else if c == 12 {} else if c == 13 {}
             else if c == 14 {} else {}
  }

  lemma Row3(c: bv8)
    requires c < 16
    ensures (c as nat) < 16 && ROW_3[c as nat] == ShiftByte(0x30 | (c as bv32))
  {
    if c == 0 {} else if c == 1 {} else if c == 2 {} else if c == 3 {} else if c == 4 {} else if c == 5 {}
        else if c == 6 {} else if c == 7 {}
    else if c == 8 {} else if c == 9 {} else if c == 10 {} else if c == 11 {} else if c == 12 {} else if c == 13 {}
             else if c == 14 {} else {}
  }

  lemma Row4(c: bv8)
    requires c < 16
    ensures (c as nat) < 16 && ROW_4[c as nat] == ShiftByte(0x40 | (c as bv32))
  {
    if c == 0 {} else if c == 1 {} else if c == 2 {} else if c == 3 {} else if c == 4 {} else if c == 5 {}
        else if c == 6 {} else if c == 7 {}
    else if c == 8 {} else if c == 9 {} else if c == 10 {} else if c == 11 {} else if c == 12 {} else if c == 13 {}
             else if c == 14 {} else {}
  }

  lemma Row5(c: bv8)
    requires c < 16
    ensures (c as nat) < 16 && ROW_5[c as nat] == ShiftByte(0x50 | (c as bv32))
  {
    if c == 0 {} else if c == 1 {} else if c == 2 {} else if c == 3 {} else if c == 4 {} else if c == 5 {}
        else if c == 6 {} else if c == 7 {}
    else if c == 8 {} else if c == 9 {} else if c == 10 {} else if c == 11 {} else if c == 12 {} else if c == 13 {}
             else if c == 14 {} else {}
  }

  lemma Row6(c: bv8)
    requires c < 16
    ensures (c as nat) < 16 && ROW_6[c as nat] == ShiftByte(0x60 | (c as bv32))
  {
    if c == 0 {} else if c == 1 {} else if c == 2 {} else if c == 3 {} else if c == 4 {} else if c == 5 {}
        else if c == 6 {} else if c == 7 {}
    else if c == 8 {} else if c == 9 {} else if c == 10 {} else if c == 11 {} else if c == 12 {} else if c == 13 {}
             else if c == 14 {} else {}
  }

  lemma Row7(c: bv8)
    requires c < 16
    ensures (c as nat) < 16 && ROW_7[c as nat] == ShiftByte(0x70 | (c as bv32))
  {
    if c == 0 {} else if c == 1 {} else if c == 2 {} else if c == 3 {} else if c == 4 {} else if c == 5 {}
        else if c == 6 {} else if c == 7 {}
    else if c == 8 {} else if c == 9 {} else if c == 10 {} else if c == 11 {} else if c == 12 {} else if c == 13 {}
             else if c == 14 {} else {}
  }

  lemma Row8(c: bv8)
    requires c < 16
    ensures (c as nat) < 16 && ROW_8[c as nat] == ShiftByte(0x80 | (c as bv32))
  {
    if c == 0 {} else if c == 1 {} else if c == 2 {} else if c == 3 {} else if c == 4 {} else if c == 5 {}
        else if c == 6 {} else if c == 7 {}
    else if c == 8 {} else if c == 9 {} else if c == 10 {} else if c == 11 {} else if c == 12 {} else if c == 13 {}
             else if c == 14 {} else {}
  }

  lemma Row9(c: bv8)
    requires c < 16
    ensures (c as nat) < 16 && ROW_9[c as nat] == ShiftByte(0x90 | (c as bv32))
  {
    if c == 0 {} else if c == 1 {} else if c == 2 {} else if c == 3 {} else if c == 4 {} else if c == 5 {}
        else if c == 6 {} else if c == 7 {}
    else if c == 8 {} else if c == 9 {} else if c == 10 {} else if c == 11 {} else if c == 12 {} else if c == 13 {}
             else if c == 14 {} else {}
  }

  lemma RowA(c: bv8)
    requires c < 16
    ensures (c as nat) < 16 && ROW_A[c as nat] == ShiftByte(0xA0 | (c as bv32))
  {
    if c == 0 {} else if c == 1 {} else if c == 2 {} else if c == 3 {} else if c == 4 {} else if c == 5 {}
        else if c == 6 {} else if c == 7 {}
    else if c == 8 {} else if c == 9 {} else if c == 10 {} else if c == 11 {} else if c == 12 {} else if c == 13 {}
             else if c == 14 {} else {}
  }

  lemma RowB(c: bv8)
    requires c < 16
    ensures (c as nat) < 16 && ROW_B[c as nat] == ShiftByte(0xB0 | (c as bv32))
  {
    if c == 0 {} else if c == 1 {} else if c == 2 {} else if c == 3 {} else if c == 4 {} else if c == 5 {}
        else if c == 6 {} else if c == 7 {}
    else if c == 8 {} else if c == 9 {} else if c == 10 {} else if c == 11 {} else if c == 12 {} else if c == 13 {}
             else if c == 14 {} else {}
  }

  lemma RowC(c: bv8)
    requires c < 16
    ensures (c as nat) < 16 && ROW_C[c as nat] == ShiftByte(0xC0 | (c as bv32))
  {
    if c == 0 {} else if c == 1 {} else if c == 2 {} else if c == 3 {} else if c == 4 {} else if c == 5 {}
        else if c == 6 {} else if c == 7 {}
    else if c == 8 {} else if c == 9 {} else if c == 10 {} else if c == 11 {} else if c == 12 {} else if c == 13 {}
             else if c == 14 {} else {}
  }

  lemma RowD(c: bv8)
    requires c < 16
    ensures (c as nat) < 16 && ROW_D[c as nat] == ShiftByte(0xD0 | (c as bv32))
  {
    if c == 0 {} else if c == 1 {} else if c == 2 {} else if c == 3 {} else if c == 4 {} else if c == 5 {}
        else if c == 6 {} else if c == 7 {}
    else if c == 8 {} else if c == 9 {} else if c == 10 {} else if c == 11 {} else if c == 12 {} else if c == 13 {}
             else if c == 14 {} else {}
  }

  lemma RowE(c: bv8)
    requires c < 16
    ensures (c as nat) < 16 && ROW_E[c as nat] == ShiftByte(0xE0 | (c as bv32))
  {
    if c == 0 {} else if c == 1 {} else if c == 2 {} else if c == 3 {} else if c == 4 {} else if c == 5 {}
        else if c == 6 {} else if c == 7 {}
    else if c == 8 {} else if c == 9 {} else if c == 10 {} else if c == 11 {} else if c == 12 {} else if c == 13 {}
             else if c == 14 {} else {}
  }

  lemma RowF(c: bv8)
    requires c < 16
    ensures (c as nat) < 16 && ROW_F[c as nat] == ShiftByte(0xF0 | (c as bv32))
  {
    if c == 0 {} else if c == 1 {} else if c == 2 {} else if c == 3 {} else if c == 4 {} else if c == 5 {}
        else if c == 6 {} else if c == 7 {}
    else if c == 8 {} else if c == 9 {} else if c == 10 {} else if c == 11 {} else if c == 12 {} else if c == 13 {}
             else if c == 14 {} else {}
  }

  lemma Rows0To3(r: bv8, c: bv8)
    requires r < 4 && c < 16
    ensures (r as nat) < 16 && (c as nat) < 16
    ensures ROWS[r as nat][c as nat] == ShiftByte(((r as bv32) << 4) | (c as bv32))
  {
    hide ShiftByte;
    if r == 0x0 {
      Row0(c);
    } else if r == 0x1 {
      Row1(c);
    } else if r == 0x2 {
      Row2(c);
    } else {
      Row3(c);
    }
  }

  lemma Rows4To7(r: bv8, c: bv8)
    requires 4 <= r < 8 && c < 16
    ensures (r as nat) < 16 && (c as nat) < 16
    ensures ROWS[r as nat][c as nat] == ShiftByte(((r as bv32) << 4) | (c as bv32))
  {
    hide ShiftByte;
    if r == 0x4 {
      Row4(c);
    } else if r == 0x5 {
      Row5(c);
    } else if r == 0x6 {
      Row6(c);
    } else {
      Row7(c);
    }
  }

  lemma Rows8ToB(r: bv8, c: bv8)
    requires 8 <= r < 12 && c < 16
    ensures (r as nat) < 16 && (c as nat) < 16
    ensures ROWS[r as nat][c as nat] == ShiftByte(((r as bv32) << 4) | (c as bv32))
  {
    hide ShiftByte;
    if r == 0x8 {
      Row8(c);
    } else if r == 0x9 {
      Row9(c);
    } else if r == 0xA {
      RowA(c);
    } else {
      RowB(c);
    }
  }

  lemma RowsCToF(r: bv8, c: bv8)
    requires 12 <= r < 16 && c < 16
    ensures (r as nat) < 16 && (c as nat) < 16
    ensures ROWS[r as nat][c as nat] == ShiftByte(((r as bv32) << 4) | (c as bv32))
  {
    hide ShiftByte;
    if r == 0xC {
      RowC(c);
    } else if r == 0xD {
      RowD(c);
    } else if r == 0xE {
      RowE(c);
    } else {
      RowF(c);
    }
  }

  /** Every table entry is its index shifted through the register. */
  lemma TableEntry(x: bv8)
    ensures Table(x) == ShiftByte(Word8(x))
  {
    Halves(x);
    if x >> 4 < 4 {
      Rows0To3(x >> 4, x & 0xF);
    } else if x >> 4 < 8 {
      Rows4To7(x >> 4, x & 0xF);
    } else if x >> 4 < 12 {
      Rows8ToB(x >> 4, x & 0xF);
    } else {
      RowsCToF(x >> 4, x & 0xF);
    }
  }
}
