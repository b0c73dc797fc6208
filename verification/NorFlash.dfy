/**
  NOR flash: sectors of bytes. Erasing sets a sector to 0xFF, writing ANDs bytes onto what is
  there. One write or one erase is atomic; `hist` keeps the contents left by each of them, so a
  statement about every element of `hist` is a statement about every point where power can fail.
*/
module NorFlash {
  import opened Bytes
  import opened Status

  /** An address: sector number and offset; the byte address is `sec * secSize + off`. */
  datatype Addr = Addr(sec: nat, off: nat)

  type Memory = seq<seq<byte>>

  ghost predicate Sized(m: Memory, secSize: nat) {
    forall i :: 0 <= i < |m| ==> |m[i]| == secSize
  }

  class Flash {
    const secSize: nat
    const secNum: nat
    var mem: Memory
    var hist: seq<Memory>

    ghost predicate Valid()
      reads this
    {
      && |mem| == secNum
      && forall i :: 0 <= i < secNum ==> |mem[i]| == secSize
    }

    /** A device as found at power-up, with any contents. */
    constructor (secSize: nat, secNum: nat, contents: Memory)
      requires |contents| == secNum && forall i :: 0 <= i < secNum ==> |contents[i]| == secSize
      ensures Valid() && this.secSize == secSize && this.secNum == secNum && mem == contents && hist == []
    {
      this.secSize := secSize;
      this.secNum := secNum;
      this.mem := contents;
      this.hist := [];
    }

    /** `_fdb_flash_read` */
    method Read(sec: nat, off: nat, size: nat) returns (data: seq<byte>)
      requires Valid() && sec < secNum && off + size <= secSize
      ensures data == mem[sec][off..off + size]
    {
      data := mem[sec][off..off + size];
    }

    /** `_fdb_flash_write` */
    method Write(sec: nat, off: nat, data: seq<byte>)
      requires Valid() && sec < secNum && off + |data| <= secSize
      modifies this
      ensures Valid()
      ensures mem == old(mem)[sec := Program(old(mem)[sec], off, data)]
      ensures hist == old(hist) + [mem]
    {
      mem := mem[sec := Program(mem[sec], off, data)];
      hist := hist + [mem];
    }

    /** `_fdb_flash_erase` of one sector */
    method Erase(sec: nat)
      requires Valid() && sec < secNum
      modifies this
      ensures Valid()
      ensures mem == old(mem)[sec := Ones(secSize)]
      ensures hist == old(hist) + [mem]
    {
      mem := mem[sec := Ones(secSize)];
      hist := hist + [mem];
    }

    /** `_fdb_write_status`: status 0 is the erased table and is not written. */
    method WriteStatus(sec: nat, off: nat, num: nat, s: nat)
      requires Valid() && sec < secNum && off + TableSize(num) <= secSize && s < num
      modifies this
      ensures Valid()
      ensures s == 0 ==> mem == old(mem) && hist == old(hist)
      ensures s > 0 ==> mem == old(mem)[sec := Program(old(mem)[sec], off + (s - 1) / 8, [Encode(num, s)[(s - 1) / 8]])]
      ensures s > 0 ==> hist == old(hist) + [mem]
    {
      var table := new byte[TableSize(num)];
      var byteIndex := SetStatus(table, num, s);
      if byteIndex == -1 {
        return;
      }
      var t := table[..];
      assert t == Encode(num, s);
      Write(sec, off + byteIndex, [t[byteIndex]]);
    }

    /** `_fdb_read_status` */
    method ReadStatus(sec: nat, off: nat, num: nat) returns (s: nat)
      requires Valid() && sec < secNum && 0 < num && off + TableSize(num) <= secSize
      ensures s == Decode(mem[sec][off..off + TableSize(num)], num)
    {
      var t := Read(sec, off, TableSize(num));
      s := GetStatus(t, num);
    }

    /** `_fdb_continue_ff_addr`: scan in 32-byte reads for the start of the erased tail. */
    method ContinueFf(sec: nat, start: nat, end: nat) returns (r: nat)
      requires Valid() && sec < secNum && start <= end <= secSize
      ensures start <= r <= end
      ensures forall p :: r <= p < end ==> mem[sec][p] == ERASED
      ensures r > start ==> mem[sec][r - 1] != ERASED
    {
      var at: nat, addr: nat, last := start, start, 0 as byte;
      ghost var done := start;
      while at < end
        invariant done == (if at < end then at else end) && start <= at
        invariant TailFrom(mem[sec], start, done, addr, last)
        decreases end - at
      {
        var size := if at + 32 < end then 32 else end - at;
        var buf := Read(sec, at, size);
        var i := 0;
        while i < size
          invariant 0 <= i <= size && at == done
          invariant TailFrom(mem[sec], start, at + i, addr, last)
        {
          if last != ERASED && buf[i] == ERASED {
            addr := at + i;
          }
          last := buf[i];
          i := i + 1;
        }
        done := at + size;
        at := at + 32;
      }
      r := if last == ERASED then addr else end;
    }
  }

  /** The scanner's knowledge after the bytes [start, done): where the erased run touching `done` began. */
  ghost predicate TailFrom(m: seq<byte>, start: nat, done: nat, addr: nat, last: byte) {
    && start <= done <= |m|
    && (done == start ==> last == 0)
    && (done > start ==> last == m[done - 1])
    && (last == ERASED ==>
          && start <= addr < done
          && (forall p :: addr <= p < done ==> m[p] == ERASED)
          && (addr > start ==> m[addr - 1] != ERASED))
  }

  /** The start found is the least one: no earlier start leaves an erased tail. */
  lemma ErasedTailIsLeast(m: seq<byte>, start: nat, end: nat, r: nat, q: nat)
    requires start <= r <= end <= |m| && start <= q <= end
    requires forall p :: r <= p < end ==> m[p] == ERASED
    requires r > start ==> m[r - 1] != ERASED
    ensures (forall p :: q <= p < end ==> m[p] == ERASED) <==> r <= q
  {
    if q < r {
      assert m[r - 1] != ERASED;
    }
  }

  /** The byte address of an offset in a sector, and back: aligning down finds the sector. */
  function FlatAddr(secSize: nat, a: Addr): nat {
    a.sec * secSize + a.off
  }

  lemma FlatAddrSplits(secSize: nat, a: Addr)
    requires a.off < secSize
    ensures FlatAddr(secSize, a) / secSize == a.sec && FlatAddr(secSize, a) % secSize == a.off
    ensures FlatAddr(secSize, a) - FlatAddr(secSize, a) % secSize == FlatAddr(secSize, Addr(a.sec, 0))
  {
    DivModUnique(FlatAddr(secSize, a), secSize, a.sec, a.off);
  }

  lemma DivModUnique(n: nat, d: nat, q: nat, r: nat)
    requires r < d && n == q * d + r
    ensures n / d == q && n % d == r
  {
    var e := n / d - q;
    assert n == (n / d) * d + n % d;
    assert e * d == r - n % d;
    MultipleIsFar(e, d);
  }

  lemma MultipleIsFar(e: int, d: int)
    requires d > 0
    ensures e > 0 ==> e * d >= d
    ensures e < 0 ==> e * d <= -d
  {
  }
}
