/**
  The OLED frame buffer: 144 columns of 8 bytes, one bit a pixel, bit 0 of byte 0 on top.
  Filling a rectangle takes a byte-wise shortcut; it must paint what the pixel loop paints.
*/
module Oled {

  const WIDTH: nat := 144
  const PAGES: nat := 8
  const HEIGHT: nat := 64

  function OneBit(m: nat): bv8
    requires m < 8
  {
    1 << m
  }

  predicate BitSet(b: bv8, k: nat)
    requires k < 8
  {
    b & OneBit(k) != 0
  }

  function WithBit(b: bv8, m: nat, on: bool): bv8
    requires m < 8
  {
    if on then b | OneBit(m) else b & !OneBit(m)
  }

  lemma OneBitValue(m: nat)
    requires m < 8
    ensures OneBit(m) == if m == 0 then 1 else if m == 1 then 2 else if m == 2 then 4 else if m == 3 then 8
                         else if m == 4 then 16 else if m == 5 then 32 else if m == 6 then 64 else 128
  {
    if m == 0 {} else if m == 1 {} else if m == 2 {} else if m == 3 {}
    else if m == 4 {} else if m == 5 {} else if m == 6 {} else {}
  }

  lemma WithBitReads(b: bv8, m: nat, on: bool, k: nat)
    requires m < 8 && k < 8
    ensures BitSet(WithBit(b, m, on), k) <==> if k == m then on else BitSet(b, k)
  {
    OneBitValue(m);
    OneBitValue(k);
  }

  lemma FilledReads(k: nat)
    requires k < 8
    ensures BitSet(0xFF, k) && !BitSet(0x00, k)
  {
    OneBitValue(k);
  }

  /** Two bytes with the same bits are the same. */
  lemma BitsDecide(b: bv8, c: bv8)
    requires forall k: nat :: k < 8 ==> (BitSet(b, k) <==> BitSet(c, k))
    ensures b == c
  {
    OneBitValue(0);
    OneBitValue(1);
    OneBitValue(2);
    OneBitValue(3);
    OneBitValue(4);
    OneBitValue(5);
    OneBitValue(6);
    OneBitValue(7);
    assert BitSet(b, 0) <==> BitSet(c, 0);
    assert BitSet(b, 1) <==> BitSet(c, 1);
    assert BitSet(b, 2) <==> BitSet(c, 2);
    assert BitSet(b, 3) <==> BitSet(c, 3);
    assert BitSet(b, 4) <==> BitSet(c, 4);
    assert BitSet(b, 5) <==> BitSet(c, 5);
    assert BitSet(b, 6) <==> BitSet(c, 6);
    assert BitSet(b, 7) <==> BitSet(c, 7);
  }

  /** uint8_t arithmetic: the first byte boundary at or below the top row wraps past row 248. */
  function FirstWholeRow(y1: nat): nat {
    (y1 + (8 - y1 % 8) % 8) % 256
  }

  function LastWholeRow(y2: nat): nat {
    y2 - y2 % 8
  }

  /** The rows `DrawRect` paints in each of its columns. */
  predicate Painted(y1: nat, y2: nat, y: nat) {
    y1 <= y <= y2 || (y1 > 248 && y2 >= 8 && y <= y2)
  }

  /** The bits of byte `i` of a column whose rows are painted, row 8 * i in the lowest one. */
  function Mask(y1: nat, y2: nat, i: nat): bv8 {
    (if Painted(y1, y2, 8 * i) then 0x01 else 0x00) | (if Painted(y1, y2, 8 * i + 1) then 0x02 else 0x00)
    | (if Painted(y1, y2, 8 * i + 2) then 0x04 else 0x00) | (if Painted(y1, y2, 8 * i + 3) then 0x08 else 0x00)
    | (if Painted(y1, y2, 8 * i + 4) then 0x10 else 0x00) | (if Painted(y1, y2, 8 * i + 5) then 0x20 else 0x00)
    | (if Painted(y1, y2, 8 * i + 6) then 0x40 else 0x00) | (if Painted(y1, y2, 8 * i + 7) then 0x80 else 0x00)
  }

  lemma MaskReads(y1: nat, y2: nat, i: nat, k: nat)
    requires k < 8
    ensures BitSet(Mask(y1, y2, i), k) <==> Painted(y1, y2, 8 * i + k)
  {
    OneBitValue(k);
    MaskBit(y1, y2, i, k);
  }

  lemma MaskBit(y1: nat, y2: nat, i: nat, k: nat)
    requires k < 8
    ensures OneBit(k) & Mask(y1, y2, i) == if Painted(y1, y2, 8 * i + k) then OneBit(k) else 0
  {
    hide Painted;
    OneBitValue(k);
  }

  /** A byte of a column as filling a rectangle leaves it. */
  function Filled(b: bv8, y1: nat, y2: nat, i: nat, on: bool): bv8 {
    if on then b | Mask(y1, y2, i) else b & !Mask(y1, y2, i)
  }

  /** For example the top four rows: the low half of the first byte. */
  lemma TopRows()
    ensures Mask(0, 3, 0) == 0x0F && Mask(0, 7, 0) == 0xFF && Mask(2, 2, 0) == 0x04 && Mask(0, 3, 1) == 0x00
  {
  }

  lemma FilledIs(b: bv8, c: bv8, y1: nat, y2: nat, i: nat, on: bool)
    requires forall k: nat :: k < 8 ==>
               (BitSet(c, k) <==> if Painted(y1, y2, 8 * i + k) then on else BitSet(b, k))
    ensures c == Filled(b, y1, y2, i, on)
  {
    hide Painted, Mask;
    forall k: nat | k < 8 ensures BitSet(c, k) <==> BitSet(Filled(b, y1, y2, i, on), k) {
      MaskReads(y1, y2, i, k);
      FilledBit(b, Mask(y1, y2, i), k);
    }
    BitsDecide(c, Filled(b, y1, y2, i, on));
  }

  lemma FilledBit(b: bv8, m: bv8, k: nat)
    requires k < 8
    ensures BitSet(b | m, k) <==> BitSet(b, k) || BitSet(m, k)
    ensures BitSet(b & !m, k) <==> BitSet(b, k) && !BitSet(m, k)
  {
    hide OneBit;
    OneBitPower(k);
    OneOfThem(b, m, OneBit(k));
  }

  lemma OneBitPower(k: nat)
    requires k < 8
    ensures var x := OneBit(k); x == 1 || x == 2 || x == 4 || x == 8 || x == 16 || x == 32 || x == 64 || x == 128
  {
    OneBitValue(k);
  }

  lemma OneOfThem(b: bv8, m: bv8, x: bv8)
    requires x == 1 || x == 2 || x == 4 || x == 8 || x == 16 || x == 32 || x == 64 || x == 128
    ensures (b | m) & x != 0 <==> b & x != 0 || m & x != 0
    ensures (b & !m) & x != 0 <==> b & x != 0 && m & x == 0
  {
  }

  class FrameBuffer {
    const buff: array2<bv8>

    ghost predicate Valid() reads this {
      buff.Length0 == WIDTH && buff.Length1 == PAGES
    }

    ghost predicate Pixel(x: nat, y: nat)
      requires Valid() && x < WIDTH && y < HEIGHT
      reads this, buff
    {
      BitSet(buff[x, y / 8], y % 8)
    }

    constructor ()
      ensures Valid() && fresh(buff)
      ensures forall x, y :: 0 <= x < WIDTH && 0 <= y < HEIGHT ==> !Pixel(x, y)
    {
      buff := new bv8[WIDTH, PAGES]((x, y) => 0);
      new;
      forall x, y | 0 <= x < WIDTH && 0 <= y < HEIGHT ensures !Pixel(x, y) {
        FilledReads(y % 8);
      }
    }

    /** `oled_draw_px` */
    method DrawPx(x: nat, y: nat, on: bool)
      requires Valid() && x < WIDTH && y < HEIGHT
      modifies buff
      ensures forall u, v :: 0 <= u < WIDTH && 0 <= v < HEIGHT ==>
                (Pixel(u, v) <==> if u == x && v == y then on else old(Pixel(u, v)))
      ensures buff[x, y / 8]
           == if on then old(buff[x, y / 8]) | (1 << (y % 8)) else old(buff[x, y / 8]) & !(1 << (y % 8))
      ensures forall u, i :: 0 <= u < WIDTH && 0 <= i < PAGES && !(u == x && i == y / 8) ==>
                buff[u, i] == old(buff[u, i])
    {
      var i, m := y / 8, y % 8;
      ghost var before := buff[x, i];
      buff[x, i] := WithBit(buff[x, i], m, on);
      forall v | 0 <= v < HEIGHT && v / 8 == i
        ensures BitSet(buff[x, i], v % 8) <==> if v == y then on else BitSet(before, v % 8)
      {
        WithBitReads(before, m, on, v % 8);
      }
    }

    /** The `memset` of whole bytes inside one column. */
    method FillBytes(x: nat, from: nat, count: nat, on: bool)
      requires Valid() && x < WIDTH && from + count <= PAGES
      modifies buff
      ensures forall u, v :: 0 <= u < WIDTH && 0 <= v < HEIGHT ==>
                (Pixel(u, v) <==> if u == x && 8 * from <= v < 8 * (from + count) then on else old(Pixel(u, v)))
    {
      var j := from;
      while j < from + count
        invariant from <= j <= from + count
        invariant forall u, i :: 0 <= u < WIDTH && 0 <= i < PAGES ==>
                    buff[u, i] == if u == x && from <= i < j then (if on then 0xFF else 0x00) else old(buff[u, i])
      {
        buff[x, j] := if on then 0xFF else 0x00;
        j := j + 1;
      }
      forall v | 8 * from <= v < 8 * (from + count) ensures Pixel(x, v) <==> on {
        FilledReads(v % 8);
      }
    }

    /** Pixel loop over the rows [y1, end) of one column. */
    method DrawRows(x: nat, y1: nat, end: nat, on: bool)
      requires Valid() && x < WIDTH && end <= HEIGHT
      modifies buff
      ensures forall u, v :: 0 <= u < WIDTH && 0 <= v < HEIGHT ==>
                (Pixel(u, v) <==> if u == x && y1 <= v < end then on else old(Pixel(u, v)))
    {
      var y := y1;
      while y < end
        invariant y1 <= y <= end || y == y1 >= end
        invariant forall u, v :: 0 <= u < WIDTH && 0 <= v < HEIGHT ==>
                    (Pixel(u, v) <==> if u == x && y1 <= v < y then on else old(Pixel(u, v)))
      {
        DrawPx(x, y, on);
        y := y + 1;
      }
    }

    /** The body of the column loop: the shortcut when a whole byte lies inside, else pixel by pixel. */
    method DrawColumn(x: nat, y1: nat, y2: nat, on: bool)
      requires Valid() && x < WIDTH && y1 < 256 && y2 < HEIGHT
      modifies buff
      ensures forall u, v :: 0 <= u < WIDTH && 0 <= v < HEIGHT ==>
                (Pixel(u, v) <==> if u == x && Painted(y1, y2, v) then on else old(Pixel(u, v)))
    {
      var from, to := FirstWholeRow(y1), LastWholeRow(y2);
      BoundariesMeet(y1, y2);
      if to > from {
        DrawRows(x, y1, from, on);
        FillBytes(x, from / 8, (to - from) / 8, on);
        DrawRows(x, to, y2 + 1, on);
      } else {
        DrawRows(x, y1, y2 + 1, on);
      }
    }

    /** `oled_draw_rect` on uint8_t corners; `mode` non-zero paints, zero clears. */
    method DrawRect(x1: nat, y1: nat, x2: nat, y2: nat, mode: nat)
      requires Valid() && x2 < WIDTH && y1 < 256 && y2 < HEIGHT
      modifies buff
      ensures forall u, v :: 0 <= u < WIDTH && 0 <= v < HEIGHT ==>
                (Pixel(u, v) <==> if x1 <= u <= x2 && Painted(y1, y2, v) then mode != 0 else old(Pixel(u, v)))
      ensures forall u, i :: 0 <= u < WIDTH && 0 <= i < PAGES ==>
                buff[u, i] == if x1 <= u <= x2 then Filled(old(buff[u, i]), y1, y2, i, mode != 0) else old(buff[u, i])
    {
      var x := x1;
      while x <= x2
        invariant x1 <= x
        invariant x <= x2 + 1 || x == x1
        invariant forall u, v :: 0 <= u < WIDTH && 0 <= v < HEIGHT ==>
                    (Pixel(u, v) <==> if x1 <= u < x && Painted(y1, y2, v) then mode != 0 else old(Pixel(u, v)))
      {
        DrawColumn(x, y1, y2, mode != 0);
        x := x + 1;
      }
      forall u, i | 0 <= u < WIDTH && 0 <= i < PAGES
        ensures buff[u, i] == if x1 <= u <= x2 then Filled(old(buff[u, i]), y1, y2, i, mode != 0) else old(buff[u, i])
      {
        ghost var was := old(buff[u, i]);
        forall k: nat | k < 8
          ensures BitSet(buff[u, i], k) <==>
                    if x1 <= u <= x2 && Painted(y1, y2, 8 * i + k) then mode != 0 else BitSet(was, k)
        {
          assert (8 * i + k) / 8 == i && (8 * i + k) % 8 == k;
          assert Pixel(u, 8 * i + k) <==> BitSet(buff[u, i], k);
        }
        if x1 <= u <= x2 {
          FilledIs(was, buff[u, i], y1, y2, i, mode != 0);
        } else {
          BitsDecide(buff[u, i], was);
        }
      }
    }
  }

  /** Where the byte-aligned stretch starts and ends, with the wrap of the 8-bit start. */
  lemma BoundariesMeet(y1: nat, y2: nat)
    requires y1 < 256 && y2 < HEIGHT
    ensures var from, to := FirstWholeRow(y1), LastWholeRow(y2);
            && from % 8 == 0 && to % 8 == 0 && to <= y2 < to + 8
            && (y1 <= 248 ==> y1 <= from < y1 + 8)
            && (y1 > 248 ==> from == 0)
            && (to > from ==> 8 * (from / 8 + (to - from) / 8) == to && 8 * (from / 8) == from)
  {
    var from, to := FirstWholeRow(y1), LastWholeRow(y2);
    assert y1 == 8 * (y1 / 8) + y1 % 8 && y2 == 8 * (y2 / 8) + y2 % 8;
    if y1 % 8 == 0 {
      assert from == y1;
    } else {
      assert y1 + (8 - y1 % 8) % 8 == 8 * (y1 / 8 + 1);
    }
  }

  /**
    The rectangle with rows y1..y2 is painted exactly, empty when y1 > y2, unless the aligned
    start wraps: a top row past 248 with a bottom row of at least 8 paints rows 0..y2 instead.
  */
  lemma PaintsRectangleExactlyUnlessWrapped(y1: nat, y2: nat)
    requires y1 < 256 && y2 < HEIGHT
    ensures (forall y :: 0 <= y < HEIGHT ==> (Painted(y1, y2, y) <==> y1 <= y <= y2)) <==> !(y1 > 248 && y2 >= 8)
  {
    if y1 > 248 && y2 >= 8 {
      assert Painted(y1, y2, 0);
    }
  }
}
