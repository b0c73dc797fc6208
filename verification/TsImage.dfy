/**
  What the writes of the time-series store do to the bytes of a sector: opening it, adding an
  entry, closing it. All but the status bytes land on erased flash.
*/
module TsImage {
  import opened Bytes
  import opened Status
  import opened KvLayout
  import opened TsLayout

  /** A write on erased bytes reads back as written and touches nothing else. */
  lemma ProgramAt(b: seq<byte>, off: nat, data: seq<byte>)
    requires off + |data| <= |b| && forall p :: off <= p < off + |data| ==> b[p] == ERASED
    ensures var c := Program(b, off, data);
            && c[off..off + |data|] == data
            && forall p :: 0 <= p < |b| && !(off <= p < off + |data|) ==> c[p] == b[p]
  {
    ProgramErased(b, off, data);
  }

  /** One status byte over a lower one. */
  lemma ProgramStatus(b: seq<byte>, off: nat, s1: nat, s2: nat)
    requires off < |b| && s1 <= s2 < 8 && b[off] == StatusByte(s1)
    ensures var c := Program(b, off, [StatusByte(s2)]);
            c[off] == StatusByte(s2) && forall p :: 0 <= p < |b| && p != off ==> c[p] == b[p]
  {
    hide StatusByte, And;
    StatusByteProgrammed(s1, s2);
  }

  lemma ErasedIsStatus()
    ensures StatusByte(0) == ERASED
  {
    StatusByteBits(0);
  }

  lemma SliceKept(b: seq<byte>, c: seq<byte>, i: nat, j: nat)
    requires i <= j <= |b| == |c| && forall p :: i <= p < j ==> c[p] == b[p]
    ensures c[i..j] == b[i..j]
  {
  }

  // ----- formatting -----

  lemma FormatBytes(size: nat, base: nat)
    requires TS_HDR <= size && base + size < U32_LIMIT
    ensures var s := TsSector(Empty, 0, []);
            TsShape(s, size, base)
            && TsBytes(Program(Program(Ones(size), 0, [StatusByte(Empty.Index())]), 1, U32(TS_MAGIC)), s, size, base)
  {
    hide StatusByte, U32;
    var b := Ones(size);
    ErasedIsStatus();
    ProgramStatus(b, 0, 0, Empty.Index());
    var c := Program(b, 0, [StatusByte(Empty.Index())]);
    ProgramAt(c, 1, U32(TS_MAGIC));
    var d := Program(c, 1, U32(TS_MAGIC));
    assert d[5..9] == Ones(4) && d[9..18] == Ones(9) && d[18..TS_HDR] == Ones(14);
  }

  // ----- opening -----

  lemma EmptyHeader(b: seq<byte>, s: TsSector, size: nat, base: nat)
    requires TsShape(s, size, base) && TsBytes(b, s, size, base) && s.status == Empty
    ensures |b| == size && s.entries == [] && b[0] == StatusByte(Empty.Index()) && b[1..5] == U32(TS_MAGIC)
    ensures b[9..18] == Ones(9) && b[18..TS_HDR] == Ones(14)
    ensures forall p :: 5 <= p < 9 ==> b[p] == ERASED
    ensures forall p :: TS_HDR <= p < size ==> b[p] == ERASED
  {
    hide StatusByte, U32, EntryIs;
    assert forall p :: 5 <= p < 9 ==> b[p] == b[5..9][p - 5];
  }

  lemma OpenBytes(b: seq<byte>, s: TsSector, size: nat, base: nat, time: nat)
    requires TsShape(s, size, base) && TsBytes(b, s, size, base) && s.status == Empty && time < TIME_LIMIT
    ensures var t := TsSector(Using, time, []);
            && TsShape(t, size, base)
            && TsBytes(Program(Program(b, 0, [StatusByte(Using.Index())]), 5, U32(time)), t, size, base)
  {
    hide StatusByte, U32, And, EntryIs;
    EmptyHeader(b, s, size, base);
    ProgramStatus(b, 0, Empty.Index(), Using.Index());
    var c := Program(b, 0, [StatusByte(Using.Index())]);
    ProgramAt(c, 5, U32(time));
    var d := Program(c, 5, U32(time));
    SliceKept(b, d, 1, 5);
    SliceKept(b, d, 9, 18);
    SliceKept(b, d, 18, TS_HDR);
  }

  // ----- closing -----

  /** The end information written over an erased one: status, time, index address, status. */
  lemma EndWritten(b: seq<byte>, w: seq<byte>, x: seq<byte>, b1: seq<byte>, b2: seq<byte>, b3: seq<byte>, b4: seq<byte>)
    requires |b| >= TS_HDR && |w| == |x| == 4 && forall p :: 9 <= p < 18 ==> b[p] == ERASED
    requires b1 == Program(b, 17, [StatusByte(TSL_PRE_WRITE)]) && b2 == Program(b1, 9, w)
    requires b3 == Program(b2, 13, x) && b4 == Program(b3, 17, [StatusByte(TSL_WRITE)])
    ensures |b4| == |b| && b4[9..18] == w + x + [StatusByte(TSL_WRITE)]
    ensures forall p :: 0 <= p < 9 || 18 <= p < |b| ==> b4[p] == b[p]
  {
    hide StatusByte, And;
    ErasedIsStatus();
    ProgramStatus(b, 17, 0, TSL_PRE_WRITE);
    ProgramAt(b1, 9, w);
    ProgramAt(b2, 13, x);
    ProgramStatus(b3, 17, TSL_PRE_WRITE, TSL_WRITE);
    SliceKept(b2, b4, 9, 13);
    SliceKept(b3, b4, 13, 17);
    assert b4[9..18] == b4[9..13] + b4[13..17] + [b4[17]];
  }

  /** End time, end index and end status written into the header, then FULL. */
  lemma CloseBytes(b: seq<byte>, s: TsSector, size: nat, base: nat, b4: seq<byte>)
    requires TsShape(s, size, base) && TsBytes(b, s, size, base) && s.status == Using && s.entries != []
    requires |b4| == |b|
    requires b4[9..18] == U32(LastTime(s.entries)) + U32(base + EmptyIdx(s.entries) - TS_IDX) + [StatusByte(TSL_WRITE)]
    requires forall p :: 0 <= p < 9 || 18 <= p < |b| ==> b4[p] == b[p]
    ensures TsShape(s.(status := Full), size, base)
    ensures TsBytes(Program(b4, 0, [StatusByte(Full.Index())]), s.(status := Full), size, base)
  {
    hide StatusByte, U32, EntryIs, DataLen, And;
    var t := s.(status := Full);
    var c := Program(b4, 0, [StatusByte(Full.Index())]);
    ProgramStatus(b4, 0, Using.Index(), Full.Index());
    SliceKept(b, c, 1, 5);
    SliceKept(b, c, 5, 9);
    SliceKept(b4, c, 9, 18);
    SliceKept(b, c, 18, TS_HDR);
    forall i | 0 <= i < |t.entries| ensures EntryIs(c, t.entries, size, base, i) {
      assert EntryIs(b, s.entries, size, base, i);
      EntryKept(b, c, s, size, base, i);
    }
  }

  lemma EndErased(b: seq<byte>, s: TsSector, size: nat, base: nat)
    requires TsShape(s, size, base) && TsBytes(b, s, size, base) && s.status == Using
    ensures |b| == size && forall p :: 9 <= p < 18 ==> b[p] == ERASED
  {
    hide StatusByte, U32, EntryIs, DataLen;
    var e := b[9..18];
    assert forall p :: 9 <= p < 18 ==> b[p] == e[p - 9];
  }

  /** An entry keeps its bytes when only the header or the free space changes. */
  lemma EntryKept(b: seq<byte>, c: seq<byte>, s: TsSector, size: nat, base: nat, i: nat)
    requires TsShape(s, size, base) && EntryIs(b, s.entries, size, base, i) && |c| == |b|
    requires forall p :: TS_HDR <= p < EmptyIdx(s.entries) || EmptyData(s.entries, size) <= p < size ==> c[p] == b[p]
    ensures EntryIs(c, s.entries, size, base, i)
  {
    hide IdxBytes, DataLen;
    DataInside(s, size, base, i);
    SliceKept(b, c, IdxOff(i), IdxOff(i) + TS_IDX);
    SliceKept(b, c, DataOff(s.entries, size, i), DataOff(s.entries, size, i) + |s.entries[i].data|);
  }

  // ----- adding an entry -----

  lemma EntryLater(b: seq<byte>, es: seq<Entry>, e: Entry, size: nat, base: nat, i: nat)
    requires i < |es|
    ensures EntryIs(b, es, size, base, i) <==> EntryIs(b, es + [e], size, base, i)
  {
    hide IdxBytes, DataLen;
    assert (es + [e])[..i + 1] == es[..i + 1];
  }

  /** The bytes of index and data, once they are where they belong, make a longer sector. */
  lemma EntryAdded(b: seq<byte>, c: seq<byte>, s: TsSector, e: Entry, size: nat, base: nat)
    requires TsShape(s, size, base) && TsBytes(b, s, size, base) && s.status == Using
    requires AppendFits(s, e, size) && |c| == |b|
    requires var i, d := EmptyIdx(s.entries), EmptyData(s.entries, size) - |e.data|;
             && (forall p :: 0 <= p < i || i + TS_IDX <= p < d || d + |e.data| <= p < size ==> c[p] == b[p])
             && c[i..i + TS_IDX] == IdxBytes(e, base + d) && c[d..d + |e.data|] == e.data
    ensures var t := s.(entries := s.entries + [e]); TsShape(t, size, base) && TsBytes(c, t, size, base)
  {
    hide IdxBytes, DataLen, EntryIs, StatusByte, U32;
    var t := s.(entries := s.entries + [e]);
    DataLenMore(s.entries, e);
    SliceKept(b, c, 1, 5);
    SliceKept(b, c, 5, 9);
    SliceKept(b, c, 9, 18);
    SliceKept(b, c, 18, TS_HDR);
    NewEntryIs(c, s.entries, e, size, base);
    forall i | 0 <= i < |t.entries| ensures EntryIs(c, t.entries, size, base, i) {
      if i < |s.entries| {
        assert EntryIs(b, s.entries, size, base, i);
        EntryKept(b, c, s, size, base, i);
        EntryLater(c, s.entries, e, size, base, i);
      }
    }
  }

  lemma NewEntryIs(c: seq<byte>, es: seq<Entry>, e: Entry, size: nat, base: nat)
    requires base + size < U32_LIMIT && |c| == size && e.time < U32_LIMIT && 0 <= EmptyData(es, size)
    requires EmptyIdx(es) + TS_IDX + |e.data| <= EmptyData(es, size)
    requires var i, d := EmptyIdx(es), EmptyData(es, size) - |e.data|;
             c[i..i + TS_IDX] == IdxBytes(e, base + d) && c[d..d + |e.data|] == e.data
    ensures EntryIs(c, es + [e], size, base, |es|)
  {
    hide IdxBytes, DataLen;
    DataLenMore(es, e);
    assert (es + [e])[..|es| + 1] == es + [e];
  }

  /** Room for the entry, and a later time stamp than all before. */
  ghost predicate AppendFits(s: TsSector, e: Entry, size: nat) {
    && EmptyIdx(s.entries) + TS_IDX + |e.data| <= EmptyData(s.entries, size)
    && 0 < e.time < TIME_LIMIT && (if s.entries != [] then LastTime(s.entries) < e.time else s.start == e.time)
  }

  /** `write_tsl`: PRE_WRITE, the rest of the index, the data, WRITE, on erased bytes. */
  lemma IndexAndData(b: seq<byte>, i: nat, d: nat, w: seq<byte>, data: seq<byte>, b1: seq<byte>, b2: seq<byte>,
                     b3: seq<byte>, b4: seq<byte>)
    requires i + TS_IDX <= d && d + |data| <= |b| && |w| == 12
    requires (forall p :: i <= p < i + TS_IDX ==> b[p] == ERASED) && forall p :: d <= p < d + |data| ==> b[p] == ERASED
    requires b1 == Program(b, i, [StatusByte(TSL_PRE_WRITE)]) && b2 == Program(b1, i + 4, w)
    requires b3 == Program(b2, d, data) && b4 == Program(b3, i, [StatusByte(TSL_WRITE)])
    ensures |b4| == |b| && b4[i..i + TS_IDX] == [StatusByte(TSL_WRITE)] + Ones(3) + w && b4[d..d + |data|] == data
    ensures forall p :: 0 <= p < i || i + TS_IDX <= p < d || d + |data| <= p < |b| ==> b4[p] == b[p]
  {
    hide StatusByte, And;
    ErasedIsStatus();
    ProgramStatus(b, i, 0, TSL_PRE_WRITE);
    ProgramAt(b1, i + 4, w);
    ProgramAt(b2, d, data);
    ProgramStatus(b3, i, TSL_PRE_WRITE, TSL_WRITE);
    SliceKept(b2, b4, i + 4, i + TS_IDX);
    SliceKept(b3, b4, d, d + |data|);
    assert b4[i + 1..i + 4] == Ones(3);
    assert b4[i..i + TS_IDX] == [b4[i]] + b4[i + 1..i + 4] + b4[i + 4..i + TS_IDX];
  }

  lemma FreeErased(b: seq<byte>, s: TsSector, e: Entry, size: nat, base: nat)
    requires TsShape(s, size, base) && TsBytes(b, s, size, base) && AppendFits(s, e, size)
    ensures var i, d := EmptyIdx(s.entries), EmptyData(s.entries, size) - |e.data|;
            && |b| == size && 0 <= d && i + TS_IDX <= d && d + |e.data| <= size && base + d < U32_LIMIT
            && |e.data| < U32_LIMIT
            && (forall p :: i <= p < i + TS_IDX ==> b[p] == ERASED) &&
               forall p :: d <= p < d + |e.data| ==> b[p] == ERASED
  {
    hide HeaderIs, EntryIs;
  }
}
