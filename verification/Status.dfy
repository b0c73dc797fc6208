/**
  Status tables: a status number is stored as the position of the highest cleared bit, so
  that going up the ladder only ever clears bits (write granularity of one bit).
*/
module Status {
  import opened Bytes

  /** FDB_STATUS_TABLE_SIZE */
  function TableSize(num: nat): nat {
    (num + 7) / 8
  }

  /** The constant that selects bit `k` of a byte, counted from the most significant one. */
  function Mask(k: nat): bv8
    requires k < 8
  {
    0x80 >> k
  }

  predicate Clear(v: bv8, k: nat)
    requires k < 8
  {
    v & Mask(k) == 0
  }

  predicate BitClear(b: byte, k: nat)
    requires k < 8
  {
    Clear(Bits(b), k)
  }

  /** Bit `p` of a table, counted across its bytes. */
  predicate Cleared(t: seq<byte>, p: nat)
    requires p < 8 * |t|
  {
    BitClear(t[p / 8], p % 8)
  }

  /** One past the highest cleared bit below `n`; 0 when there is none. */
  function HighestCleared(t: seq<byte>, n: nat): (r: nat)
    requires n <= 8 * |t|
    ensures r <= n
    ensures r > 0 ==> Cleared(t, r - 1)
    ensures forall p :: r <= p < n ==> !Cleared(t, p)
  {
    if n == 0 then 0 else if Cleared(t, n - 1) then n else HighestCleared(t, n - 1)
  }

  /** What a table decodes to. */
  function Decode(t: seq<byte>, num: nat): nat
    requires 0 < num <= 8 * |t|
  {
    HighestCleared(t, num - 1)
  }

  /** The byte a status is programmed into. */
  function StatusByte(s: nat): byte {
    OfBits(StatusBits(s % 8))
  }

  function StatusBits(k: nat): bv8
    requires k < 8
  {
    0xFF >> k
  }

  /** The table that `SetStatus` builds. */
  function Encode(num: nat, s: nat): (t: seq<byte>)
    requires s < num
    ensures |t| == TableSize(num)
  {
    if s == 0 then Ones(TableSize(num)) else Ones(TableSize(num))[(s - 1) / 8 := StatusByte(s)]
  }

  /** `_fdb_set_status`: the table is rewritten in place; -1 stands for SIZE_MAX. */
  method SetStatus(table: array<byte>, num: nat, s: nat) returns (byteIndex: int)
    requires s < num && table.Length == TableSize(num)
    modifies table
    ensures table[..] == Encode(num, s)
    ensures byteIndex == if s == 0 then -1 else (s - 1) / 8
  {
    byteIndex := -1;
    var i := 0;
    while i < table.Length
      invariant 0 <= i <= table.Length
      invariant forall j :: 0 <= j < i ==> table[j] == ERASED
    {
      table[i] := ERASED;
      i := i + 1;
    }
    if s > 0 {
      byteIndex := (s - 1) / 8;
      AndErased(StatusByte(s));
      table[byteIndex] := And(table[byteIndex], StatusByte(s));
    }
  }

  /** `_fdb_get_status`: scan down from the last bit to the first cleared one. */
  method GetStatus(table: seq<byte>, num: nat) returns (s: nat)
    requires 0 < num <= 8 * |table|
    ensures s == Decode(table, num)
  {
    var i, n := 0, num - 1;
    while n > 0
      invariant i + n == num - 1
      invariant HighestCleared(table, num - 1) == HighestCleared(table, n)
    {
      n := n - 1;
      if BitClear(table[n / 8], n % 8) {
        break;
      }
      i := i + 1;
    }
    s := num - 1 - i;
  }

  // ----- bits of the bytes involved -----

  lemma MaskBits(k: nat)
    requires k < 8
    ensures Mask(k) == if k == 0 then 0x80 else if k == 1 then 0x40 else if k == 2 then 0x20 else if k == 3 then 0x10
                       else if k == 4 then 0x08 else if k == 5 then 0x04 else if k == 6 then 0x02 else 0x01
  {
    if k == 0 {} else if k == 1 {} else if k == 2 {} else if k == 3 {}
    else if k == 4 {} else if k == 5 {} else if k == 6 {} else {}
  }

  lemma StatusByteBits(s: nat)
    ensures StatusByte(s) == if s % 8 == 0 then 0xFF else if s % 8 == 1 then 0x7F else if s % 8 == 2 then 0x3F
                else if s % 8 == 3 then 0x1F
                             else if s % 8 == 4 then 0x0F
                                  else if s % 8 == 5 then 0x07 else if s % 8 == 6 then 0x03 else 0x01
  {
    var k := s % 8;
    if k == 0 {} else if k == 1 {} else if k == 2 {} else if k == 3 {}
    else if k == 4 {} else if k == 5 {} else if k == 6 {} else {}
  }

  lemma StatusByteClear(s: nat, k: nat)
    requires k < 8
    ensures BitClear(StatusByte(s), k) <==> k < s % 8
  {
    StatusByteBits(s);
    MaskBits(k);
  }

  lemma ErasedClear(k: nat)
    requires k < 8
    ensures !BitClear(ERASED, k)
  {
    MaskBits(k);
  }

  lemma MeetClear(v: bv8, w: bv8, k: nat)
    requires k < 8
    ensures Clear(Meet(v, w), k) <==> Clear(v, k) || Clear(w, k)
  {
    MaskBits(k);
  }

  /** A bit of an AND is clear exactly when it is clear on either side. */
  lemma AndClear(a: byte, b: byte, k: nat)
    requires k < 8
    ensures BitClear(And(a, b), k) <==> BitClear(a, k) || BitClear(b, k)
  {
    hide Bits, OfBits, Meet, Clear;
    AndBits(a, b);
    MeetClear(Bits(a), Bits(b), k);
  }

  // ----- the ladder -----

  lemma HighestIs(t: seq<byte>, n: nat, r: nat)
    requires r <= n <= 8 * |t|
    requires r > 0 ==> Cleared(t, r - 1)
    requires forall p :: r <= p < n ==> !Cleared(t, p)
    ensures HighestCleared(t, n) == r
  {
  }

  lemma SameByte(s: nat, p: nat)
    ensures s > 0 && p / 8 == (s - 1) / 8 && p % 8 < s % 8 <==> s % 8 != 0 && s - s % 8 <= p < s
  {
    var q, k := s / 8, s % 8;
    assert s == 8 * q + k && p == 8 * (p / 8) + p % 8;
    if k != 0 {
      assert (s - 1) / 8 == q;
    }
  }

  lemma EncodeCleared(num: nat, s: nat, p: nat)
    requires s < num && p < num - 1
    ensures Cleared(Encode(num, s), p) <==> s % 8 != 0 && s - s % 8 <= p < s
  {
    ErasedClear(p % 8);
    StatusByteClear(s, p % 8);
    SameByte(s, p);
  }

  /**
    Reading back what was set. It works for every status of a table of any size except the
    positive multiples of 8, which leave the table erased; a table of at most 8 states has none.
  */
  lemma DecodeEncode(num: nat, s: nat)
    requires s < num
    ensures Decode(Encode(num, s), num) == s <==> (s == 0 || s % 8 != 0)
    ensures num <= 8 ==> Decode(Encode(num, s), num) == s
  {
    hide StatusByte;
    hide BitClear;
    hide Encode;
    var r := if s % 8 == 0 then 0 else s;
    if r > 0 {
      EncodeCleared(num, s, r - 1);
    }
    forall p | r <= p < num - 1
      ensures !Cleared(Encode(num, s), p)
    {
      EncodeCleared(num, s, p);
    }
    HighestIs(Encode(num, s), num - 1, r);
  }

  function Max(a: nat, b: nat): nat {
    if a < b then b else a
  }

  /** What the flash holds after `b` is programmed over `a`, byte by byte. */
  function AndTable(a: seq<byte>, b: seq<byte>): (r: seq<byte>)
    requires |a| == |b|
    ensures |r| == |a|
  {
    Program(a, 0, b)
  }

  lemma ProgrammedCleared(a: seq<byte>, b: seq<byte>, p: nat)
    requires |a| == |b| && p < 8 * |a|
    ensures Cleared(AndTable(a, b), p) <==> Cleared(a, p) || Cleared(b, p)
  {
    hide BitClear;
    AndClear(a[p / 8], b[p / 8], p % 8);
  }

  /** Programming one table over another decodes to the higher of the two statuses. */
  lemma DecodeProgrammed(a: seq<byte>, b: seq<byte>, num: nat)
    requires |a| == |b| && 0 < num <= 8 * |a|
    ensures Decode(AndTable(a, b), num) == Max(Decode(a, num), Decode(b, num))
  {
    hide BitClear, AndTable;
    var r := Max(Decode(a, num), Decode(b, num));
    if r > 0 {
      ProgrammedCleared(a, b, r - 1);
    }
    forall p | r <= p < num - 1
      ensures !Cleared(AndTable(a, b), p)
    {
      ProgrammedCleared(a, b, p);
    }
    HighestIs(AndTable(a, b), num - 1, r);
  }

  /** Programming a whole run of statuses, oldest first, over a table. */
  function ProgramRun(t: seq<byte>, num: nat, run: seq<nat>): (r: seq<byte>)
    requires |t| == TableSize(num) && forall i :: 0 <= i < |run| ==> run[i] < num
    ensures |r| == |t|
    decreases run
  {
    if run == [] then t else ProgramRun(AndTable(t, Encode(num, run[0])), num, run[1..])
  }

  function MaxOf(s: nat, run: seq<nat>): (m: nat)
    ensures s <= m
    decreases run
  {
    if run == [] then s else MaxOf(Max(s, run[0]), run[1..])
  }

  /** Between two erases a status never goes back: any run of writes leaves the highest of them. */
  lemma {:induction false} LadderNeverGoesBack(t: seq<byte>, num: nat, run: seq<nat>)
    requires 0 < num <= 8 && |t| == TableSize(num) && forall i :: 0 <= i < |run| ==> run[i] < num
    ensures Decode(ProgramRun(t, num, run), num) == MaxOf(Decode(t, num), run)
    decreases run
  {
    if run == [] {
    } else {
      DecodeProgrammed(t, Encode(num, run[0]), num);
      DecodeEncode(num, run[0]);
      LadderNeverGoesBack(AndTable(t, Encode(num, run[0])), num, run[1..]);
    }
  }

  /** One-byte tables, the only ones the two databases use: programming lands on the higher byte. */
  lemma StatusByteProgrammed(a: nat, b: nat)
    requires a < 8 && b < 8
    ensures And(StatusByte(a), StatusByte(b)) == StatusByte(Max(a, b))
  {
    hide Bits, OfBits, Meet, StatusBits, StatusByte;
    StatusByteErased(a);
    StatusByteErased(b);
    StatusByteBack(a);
    StatusByteBack(b);
    StatusBitsNest(a, b);
    StatusByteBack(Max(a, b));
  }

  lemma StatusByteErased(s: nat)
    requires s < 8
    ensures StatusByte(s) == ERASED <==> s == 0
  {
    hide StatusByte;
    StatusByteBits(s);
  }

  lemma StatusByteBack(s: nat)
    requires s < 8
    ensures StatusByte(s) == OfBits(StatusBits(s)) && Bits(StatusByte(s)) == StatusBits(s)
  {
    hide Bits, OfBits, StatusBits;
    ByteOfBits(StatusBits(s));
  }

  lemma StatusBitsNest(a: nat, b: nat)
    requires a < 8 && b < 8
    ensures Meet(StatusBits(a), StatusBits(b)) == StatusBits(Max(a, b))
  {
  }

  /** A one-byte table is its status byte. */
  lemma EncodeOneByte(num: nat, s: nat)
    requires s < num <= 8
    ensures Encode(num, s) == [StatusByte(s)] && Decode([StatusByte(s)], num) == s
  {
    StatusByteBits(s);
    DecodeEncode(num, s);
    assert TableSize(num) == 1;
  }
}
