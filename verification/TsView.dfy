/**
  The time-series store as a log. `LogFrom` strings the entries of the sectors together in ring
  order; the lemmas say what opening, closing, filling and overwriting a sector make of it.
*/
module TsView {
  import opened Bytes
  import opened Status
  import opened NorFlash
  import opened Ring
  import opened KvLayout
  import opened TsLayout
  import opened TsImage

  type Sectors = seq<TsSector>

  /** `struct fdb_tsl`; the index is an address, the log a byte address as stored in flash. */
  datatype Tsl = Tsl(status: nat, time: int, logLen: nat, index: Addr, log: nat)

  /** `struct tsdb_sec_info`, with offsets in the sector for addresses. */
  datatype TsInfo = TsInfo(checkOk: bool, status: Store, sec: nat, startTime: int, endTime: int, endIdx: int,
                           stat0: nat, stat1: nat, remain: int, emptyIdx: nat, emptyData: int)

  /** The byte address of a sector. */
  function Base(size: nat, sec: nat): nat {
    FlatAddr(size, Addr(sec, 0))
  }

  ghost predicate SectorOk(mem: Memory, secs: Sectors, size: nat, i: nat) {
    i < |mem| && i < |secs| && TsShape(secs[i], size, Base(size, i)) && TsBytes(mem[i], secs[i], size, Base(size, i))
  }

  ghost predicate TsFaithful(mem: Memory, secs: Sectors, size: nat) {
    |mem| == |secs| &&
    forall i {:trigger SectorOk(mem, secs, size, i)} :: 0 <= i < |secs| ==> SectorOk(mem, secs, size, i)
  }

  lemma Changed(mem: Memory, secs: Sectors, size: nat, sec: nat, m: seq<byte>, s: TsSector)
    requires TsFaithful(mem, secs, size) && sec < |secs| && TsShape(s, size, Base(size, sec))
    requires TsBytes(m, s, size, Base(size, sec))
    ensures TsFaithful(mem[sec := m], secs[sec := s], size)
  {
    hide TsShape, TsBytes;
    var mem', secs' := mem[sec := m], secs[sec := s];
    forall i | 0 <= i < |secs| ensures SectorOk(mem', secs', size, i) {
      assert SectorOk(mem, secs, size, i);
    }
  }

  // ----- the ring -----

  /** `c` closed sectors, then the current one, then empty ones; with nothing empty the next is the oldest. */
  ghost predicate RingShape(secs: Sectors, oldest: nat, c: nat) {
    && oldest < |secs| && c < |secs| && (oldest == 0 || c == |secs| - 1)
    && (forall k :: 0 <= k < c ==> secs[SectorAfter(oldest, |secs|, k)].status == Full)
    && (forall k :: c < k < |secs| ==> secs[SectorAfter(oldest, |secs|, k)].status == Empty)
  }

  /** What `db->cur_sec` says about its sector. */
  ghost predicate InfoIs(info: TsInfo, s: TsSector, size: nat) {
    && info.checkOk && info.status == s.status
    && (s.status in {Using, Empty} ==>
          && info.emptyIdx == EmptyIdx(s.entries) && info.emptyData == EmptyData(s.entries, size)
          && info.remain == EmptyData(s.entries, size) - EmptyIdx(s.entries) && info.stat0 == 0 && info.stat1 == 0)
    && (s.status == Using ==> info.startTime == s.start)
    && (s.status == Using && s.entries != [] ==>
          info.endIdx == EmptyIdx(s.entries) - TS_IDX && info.endTime == LastTime(s.entries))
  }

  // ----- the log -----

  ghost function LogFrom(secs: Sectors, oldest: nat, k: nat): seq<Entry>
    requires oldest < |secs|
    decreases |secs| - k
  {
    if k >= |secs| then [] else secs[SectorAfter(oldest, |secs|, k)].entries + LogFrom(secs, oldest, k + 1)
  }

  /** How entry `i` of sector `sec` is described to a callback. */
  function Desc(secs: Sectors, size: nat, sec: nat, i: nat): Tsl
    requires sec < |secs| && i < |secs[sec].entries|
  {
    var es := secs[sec].entries;
    Tsl(TSL_WRITE, es[i].time, |es[i].data|, Addr(sec, IdxOff(i)), if DataOff(es, size, i) >= 0 then
        Base(size, sec) + DataOff(es, size, i) else 0)
  }

  function Descs(secs: Sectors, size: nat, sec: nat): (r: seq<Tsl>)
    requires sec < |secs|
    ensures |r| == |secs[sec].entries| && forall i :: 0 <= i < |r| ==> r[i] == Desc(secs, size, sec, i)
  {
    seq(|secs[sec].entries|, i requires 0 <= i < |secs[sec].entries| => Desc(secs, size, sec, i))
  }

  ghost function ListFrom(secs: Sectors, size: nat, oldest: nat, k: nat): seq<Tsl>
    requires oldest < |secs|
    decreases |secs| - k
  {
    if k >= |secs| then [] else Descs(secs, size, SectorAfter(oldest, |secs|, k)) + ListFrom(secs, size, oldest, k + 1)
  }

  /** A description fits an entry: time, length, and where its data is. */
  ghost predicate Describes(secs: Sectors, size: nat, t: Tsl, e: Entry) {
    exists sec, i ::
      0 <= sec < |secs| && 0 <= i < |secs[sec].entries| && t == Desc(secs, size, sec, i) && e == secs[sec].entries[i]
  }

  /** The list handed to callbacks describes the log entry by entry. */
  lemma {:induction false} ListMatches(secs: Sectors, size: nat, oldest: nat, k: nat)
    requires oldest < |secs|
    ensures |ListFrom(secs, size, oldest, k)| == |LogFrom(secs, oldest, k)|
    ensures forall j ::
              0 <= j < |LogFrom(secs, oldest, k)| ==>
                Describes(secs, size, ListFrom(secs, size, oldest, k)[j], LogFrom(secs, oldest, k)[j])
    decreases |secs| - k
  {
    hide Desc;
    if k < |secs| {
      ListMatches(secs, size, oldest, k + 1);
      var sec := SectorAfter(oldest, |secs|, k);
      var n := |secs[sec].entries|;
      forall j | 0 <= j < |LogFrom(secs, oldest, k)|
        ensures Describes(secs, size, ListFrom(secs, size, oldest, k)[j], LogFrom(secs, oldest, k)[j])
      {
        if j < n {
          assert ListFrom(secs, size, oldest, k)[j] == Desc(secs, size, sec, j);
          assert LogFrom(secs, oldest, k)[j] == secs[sec].entries[j];
        } else {
          assert ListFrom(secs, size, oldest, k)[j] == ListFrom(secs, size, oldest, k + 1)[j - n];
        }
      }
    }
  }

  // ----- an append as a change of the view -----

  /** The sectors once `sec`, closed if it has no room, or its successor is open for an entry at `time`. */
  ghost function Ready(secs: Sectors, sec: nat, closing: bool, time: nat): Sectors
    requires sec < |secs|
  {
    var inUse := TsSector(Using, time, []);
    if closing then secs[sec := secs[sec].(status := Full)][NextSector(|secs|, sec) := inUse]
    else if secs[sec].status == Empty then secs[sec := inUse]
    else secs
  }

  ghost function WithEntry(secs: Sectors, sec: nat, e: Entry): Sectors
    requires sec < |secs|
  {
    secs[sec := secs[sec].(entries := secs[sec].entries + [e])]
  }

  // ----- what the steps of an append do to the log -----

  ghost predicate SameEntries(a: Sectors, b: Sectors) {
    |a| == |b| && forall i :: 0 <= i < |a| ==> b[i].entries == a[i].entries
  }

  lemma {:induction false} LogSame(a: Sectors, b: Sectors, oldest: nat, k: nat)
    requires SameEntries(a, b) && oldest < |a|
    ensures LogFrom(b, oldest, k) == LogFrom(a, oldest, k)
    decreases |a| - k
  {
    if k < |a| {
      LogSame(a, b, oldest, k + 1);
    }
  }

  lemma {:induction false} LogEmpty(secs: Sectors, oldest: nat, k: nat)
    requires oldest < |secs| && forall m :: k <= m < |secs| ==> secs[SectorAfter(oldest, |secs|, m)].entries == []
    ensures LogFrom(secs, oldest, k) == []
    decreases |secs| - k
  {
    if k < |secs| {
      LogEmpty(secs, oldest, k + 1);
    }
  }

  /** An entry added to the current sector is the last of the log. */
  lemma {:induction false} LogAppend(a: Sectors, b: Sectors, oldest: nat, c: nat, e: Entry, k: nat)
    requires oldest < |a| && c < |a| && k <= c && |b| == |a|
    requires var sec := SectorAfter(oldest, |a|, c);
             b[sec].entries == a[sec].entries + [e] &&
             forall i :: 0 <= i < |a| && i != sec ==> b[i].entries == a[i].entries
    requires forall m :: c < m < |a| ==> a[SectorAfter(oldest, |a|, m)].entries == []
    ensures LogFrom(b, oldest, k) == LogFrom(a, oldest, k) + [e]
    decreases c - k
  {
    if k < c {
      LogAppend(a, b, oldest, c, e, k + 1);
      SameDist(oldest, |a|, SectorAfter(oldest, |a|, k), SectorAfter(oldest, |a|, c));
    } else {
      LogEmpty(a, oldest, c + 1);
      forall m | c < m < |a| ensures b[SectorAfter(oldest, |a|, m)].entries == [] {
        SameDist(oldest, |a|, SectorAfter(oldest, |a|, m), SectorAfter(oldest, |a|, c));
      }
      LogEmpty(b, oldest, c + 1);
    }
  }

  lemma AfterShift(oldest: nat, num: nat, k: nat)
    requires oldest < num && k < num
    ensures SectorAfter(NextSector(num, oldest), num, k) == if k + 1 < num then SectorAfter(oldest, num, k + 1)
                else oldest
    ensures SectorAfter(oldest, num, 0) == oldest
  {
  }

  /** The oldest sector emptied and made the newest: the log loses exactly its entries. */
  lemma {:induction false} LogRotate(a: Sectors, b: Sectors, oldest: nat, k: nat)
    requires oldest < |a| == |b| && b[oldest].entries == [] &&
             forall i :: 0 <= i < |a| && i != oldest ==> b[i].entries == a[i].entries
    ensures LogFrom(b, NextSector(|a|, oldest), k) == LogFrom(a, oldest, k + 1)
    decreases |a| - k
  {
    if k < |a| {
      AfterShift(oldest, |a|, k);
      LogRotate(a, b, oldest, k + 1);
      if k + 1 < |a| {
        SameDist(oldest, |a|, SectorAfter(oldest, |a|, k + 1), oldest);
        DistStart(oldest, |a|);
      }
    }
  }

  lemma LogHead(secs: Sectors, oldest: nat)
    requires oldest < |secs|
    ensures LogFrom(secs, oldest, 0) == secs[oldest].entries + LogFrom(secs, oldest, 1)
  {
    AfterShift(oldest, |secs|, 0);
  }

  // ----- what the steps of an append do to the ring -----

  lemma RingCur(secs: Sectors, oldest: nat, cur: nat)
    requires oldest < |secs| && cur < |secs|
    ensures SectorAfter(oldest, |secs|, Dist(oldest, |secs|, cur)) == cur
  {
  }

  /** A change of the current sector leaves the shape of the ring. */
  lemma RingSame(a: Sectors, oldest: nat, cur: nat, s: TsSector)
    requires oldest < |a| && cur < |a| && RingShape(a, oldest, Dist(oldest, |a|, cur))
    ensures RingShape(a[cur := s], oldest, Dist(oldest, |a|, cur))
  {
    var c, b := Dist(oldest, |a|, cur), a[cur := s];
    forall k | 0 <= k < |a| && k != c ensures b[SectorAfter(oldest, |a|, k)] == a[SectorAfter(oldest, |a|, k)] {
      SameDist(oldest, |a|, SectorAfter(oldest, |a|, k), cur);
    }
  }

  /** The current sector is closed and the next one is empty. */
  lemma RingAdvance(a: Sectors, oldest: nat, cur: nat)
    requires oldest < |a| && cur < |a| && RingShape(a, oldest, Dist(oldest, |a|, cur))
    requires Dist(oldest, |a|, cur) + 1 < |a| && a[cur].status == Full
    ensures var n := NextSector(|a|, cur);
            a[n].status == Empty && Dist(oldest, |a|, n) == Dist(oldest, |a|, cur) + 1 &&
            RingShape(a, oldest, Dist(oldest, |a|, n)) && n == cur + 1
  {
    DistNext(oldest, |a|, cur);
    RingCur(a, oldest, cur);
    RingCur(a, oldest, NextSector(|a|, cur));
  }

  /** Nothing is empty: the next sector is the oldest, and overwriting it makes its successor the oldest. */
  lemma RingWrap(a: Sectors, oldest: nat, cur: nat, s: TsSector)
    requires oldest < |a| && cur < |a| && RingShape(a, oldest, Dist(oldest, |a|, cur))
    requires Dist(oldest, |a|, cur) + 1 == |a| && a[cur].status == Full && |a| >= 2
    ensures NextSector(|a|, cur) == oldest && a[oldest].status == Full
    ensures var o, b := NextSector(|a|, oldest), a[oldest := s];
            Dist(o, |a|, oldest) == |a| - 1 && RingShape(b, o, |a| - 1)
  {
    var o, b := NextSector(|a|, oldest), a[oldest := s];
    RingCur(a, oldest, cur);
    AfterShift(oldest, |a|, 0);
    forall k | 0 <= k < |a| - 1 ensures b[SectorAfter(o, |a|, k)].status == Full {
      AfterShift(oldest, |a|, k);
      SameDist(oldest, |a|, SectorAfter(oldest, |a|, k + 1), oldest);
      DistStart(oldest, |a|);
    }
  }

  /** Sector `sec` is the current one of a well-shaped ring. */
  ghost predicate InRing(secs: Sectors, oldest: nat, sec: nat) {
    oldest < |secs| && sec < |secs| && RingShape(secs, oldest, Dist(oldest, |secs|, sec))
  }

  /** The log is the end of the history, which is in order; `lastTime` is the time of its last entry. */
  ghost predicate Logged(secs: Sectors, oldest: nat, history: seq<Entry>, dropped: nat, lastTime: int) {
    && oldest < |secs| && Increasing(history) && dropped <= |history| && LogFrom(secs, oldest, 0) == history[dropped..]
    && lastTime == LastTime(history)
  }

  /**
    The current sector between appends: in use with the latest entry in it, or nothing was ever appended,
    or all is full.
  */
  ghost predicate CurOk(secs: Sectors, oldest: nat, sec: nat, history: seq<Entry>, lastTime: int) {
    oldest < |secs| && sec < |secs| && var s, c := secs[sec], Dist(oldest, |secs|, sec);
      || (s.status == Using && s.entries != [] && LastTime(s.entries) == lastTime)
      || (s.status == Empty && s.entries == [] && c == 0 && oldest == 0 && history == [])
      || (s.status == Full && c == |secs| - 1 && oldest == 0)
  }

  /** The current sector is open and has room for an entry of this length and time. */
  ghost predicate HasPlace(s: TsSector, size: nat, len: nat, time: int, lastTime: int) {
    && s.status == Using && EmptyIdx(s.entries) + TS_IDX + len <= EmptyData(s.entries, size)
    && (s.entries == [] ==> s.start == time) && (s.entries != [] ==> LastTime(s.entries) == lastTime)
  }

  lemma Opened(a: Sectors, oldest: nat, sec: nat, history: seq<Entry>, dropped: nat, lastTime: int, time: nat,
               size: nat, len: nat)
    requires InRing(a, oldest, sec) && Logged(a, oldest, history, dropped, lastTime) && a[sec].entries == []
    requires TS_HDR + TS_IDX + len <= size
    ensures var b := a[sec := TsSector(Using, time, [])];
            InRing(b, oldest, sec) && Logged(b, oldest, history, dropped, lastTime) &&
            HasPlace(b[sec], size, len, time, lastTime)
  {
    hide RingShape, LogFrom, Increasing, Dist;
    var b := a[sec := TsSector(Using, time, [])];
    RingSame(a, oldest, sec, b[sec]);
    LogSame(a, b, oldest, 0);
  }

  lemma LaterEmpty(a: Sectors, oldest: nat, c: nat)
    requires RingShape(a, oldest, c) && forall i :: 0 <= i < |a| && a[i].status == Empty ==> a[i].entries == []
    ensures forall m :: c < m < |a| ==> a[SectorAfter(oldest, |a|, m)].entries == []
  {
  }

  lemma HistoryGrows(h: seq<Entry>, d: nat, e: Entry)
    requires d <= |h| && Increasing(h) && LastTime(h) < e.time < TIME_LIMIT && 0 < e.time
    ensures (h + [e])[d..] == h[d..] + [e] && Increasing(h + [e]) && LastTime(h + [e]) == e.time
  {
  }

  lemma Appended(a: Sectors, oldest: nat, sec: nat, history: seq<Entry>, dropped: nat, lastTime: int, e: Entry,
                 size: nat)
    requires InRing(a, oldest, sec) && Logged(a, oldest, history, dropped, lastTime)
    requires HasPlace(a[sec], size, |e.data|, e.time, lastTime)
    requires lastTime < e.time < TIME_LIMIT && forall i :: 0 <= i < |a| && a[i].status == Empty ==> a[i].entries == []
    ensures var s := a[sec].(entries := a[sec].entries + [e]); var b := a[sec := s];
            && InRing(b, oldest, sec) && Logged(b, oldest, history + [e], dropped, e.time)
            && CurOk(b, oldest, sec, history + [e], e.time)
  {
    hide RingShape, LogFrom, Increasing, Dist, SectorAfter;
    var s := a[sec].(entries := a[sec].entries + [e]);
    var b := a[sec := s];
    RingCur(a, oldest, sec);
    RingSame(a, oldest, sec, s);
    LaterEmpty(a, oldest, Dist(oldest, |a|, sec));
    LogAppend(a, b, oldest, Dist(oldest, |a|, sec), e, 0);
    LastNonNegative(history);
    HistoryGrows(history, dropped, e);
  }

  lemma LastNonNegative(h: seq<Entry>)
    requires Increasing(h)
    ensures LastTime(h) >= 0
  {
  }

  lemma Closed(a: Sectors, oldest: nat, sec: nat, history: seq<Entry>, dropped: nat, lastTime: int)
    requires InRing(a, oldest, sec) && Logged(a, oldest, history, dropped, lastTime)
    ensures var b := a[sec := a[sec].(status := Full)];
            InRing(b, oldest, sec) && Logged(b, oldest, history, dropped, lastTime)
  {
    hide RingShape, LogFrom, Increasing, Dist;
    var b := a[sec := a[sec].(status := Full)];
    RingSame(a, oldest, sec, b[sec]);
    LogSame(a, b, oldest, 0);
  }

  /** The closed current sector is followed by an empty one, or by the oldest, which is given up. */
  lemma Advanced(b: Sectors, oldest: nat, sec: nat, history: seq<Entry>, dropped: nat, lastTime: int)
    requires InRing(b, oldest, sec) && Logged(b, oldest, history, dropped, lastTime) && b[sec].status == Full
    requires |b| >= 2
    ensures var n := NextSector(|b|, sec); var d := b[n := TsSector(Empty, 0, [])]; var o := NextSector(|b|, n);
            if Dist(oldest, |b|, sec) + 1 < |b| then b[n].status == Empty && InRing(b, oldest, n)
            else n == oldest && b[n].status == Full && InRing(d, o, n) &&
                 Logged(d, o, history, dropped + |b[n].entries|, lastTime)
  {
    hide RingShape, LogFrom, Increasing, Dist;
    var e := TsSector(Empty, 0, []);
    if Dist(oldest, |b|, sec) + 1 < |b| {
      RingAdvance(b, oldest, sec);
    } else {
      RingFill(b, oldest, sec);
      RingWrap(b, oldest, sec, e);
      LogHead(b, oldest);
      DropFront(history, dropped, b[oldest].entries, LogFrom(b, oldest, 1));
      LogRotate(b, b[oldest := e], oldest, 0);
    }
  }

  lemma RingFill(b: Sectors, oldest: nat, sec: nat)
    requires oldest < |b| && sec < |b| && Dist(oldest, |b|, sec) + 1 >= |b|
    ensures Dist(oldest, |b|, sec) + 1 == |b|
  {
  }

  /** Dropping the oldest entries from a log that is the end of a history leaves the end of that history. */
  lemma DropFront(h: seq<Entry>, d: nat, s: seq<Entry>, t: seq<Entry>)
    requires d <= |h| && h[d..] == s + t
    ensures d + |s| <= |h| && h[d + |s|..] == t
  {
    assert (s + t)[|s|..] == t;
    assert h[d..][|s|..] == h[d + |s|..];
  }

  // ----- reading -----

  lemma FourWords(h: seq<byte>, x: seq<byte>, y: seq<byte>, z: seq<byte>)
    requires |h| == |x| == |y| == |z| == 4
    ensures var w := h + x + y + z; |w| == 16 && w[0] == h[0] && w[4..8] == x && w[8..12] == y && w[12..16] == z
  {
  }

  lemma EntryReads(b: seq<byte>, es: seq<Entry>, size: nat, base: nat, i: nat)
    requires EntryIs(b, es, size, base, i)
    ensures IdxOff(i) + TS_IDX <= |b|
    ensures Decode(b[IdxOff(i)..IdxOff(i) + 1], TSL_STATUS_NUM) == TSL_WRITE
    ensures FromU32(b[IdxOff(i) + 4..IdxOff(i) + 8]) == es[i].time
    ensures FromU32(b[IdxOff(i) + 8..IdxOff(i) + 12]) == |es[i].data|
    ensures FromU32(b[IdxOff(i) + 12..IdxOff(i) + 16]) == base + DataOff(es, size, i)
  {
    hide StatusByte, U32, Decode, DataLen;
    var o, addr := IdxOff(i), base + DataOff(es, size, i);
    EncodeOneByte(TSL_STATUS_NUM, TSL_WRITE);
    FromU32OfU32(es[i].time);
    FromU32OfU32(|es[i].data|);
    FromU32OfU32(addr);
    FourWords([StatusByte(TSL_WRITE)] + Ones(3), U32(es[i].time), U32(|es[i].data|), U32(addr));
    SubSlice(b, o, TS_IDX, 4, 8);
    SubSlice(b, o, TS_IDX, 8, 12);
    SubSlice(b, o, TS_IDX, 12, 16);
    assert b[o..o + TS_IDX][0] == b[o];
    assert b[o..o + 1] == [b[o]];
  }

  lemma UnusedReads(b: seq<byte>, p: nat)
    requires p < |b| && b[p] == ERASED
    ensures Decode(b[p..p + 1], TSL_STATUS_NUM) == 0
  {
    hide StatusByte, Decode;
    ErasedIsStatus();
    EncodeOneByte(TSL_STATUS_NUM, 0);
    assert b[p..p + 1] == [StatusByte(0)];
  }

  lemma TwoWords(x: seq<byte>, y: seq<byte>, t: seq<byte>)
    requires |x| == |y| == 4
    ensures (x + y + t)[0..4] == x && (x + y + t)[4..8] == y
  {
  }

  lemma HeaderReads(b: seq<byte>, s: TsSector, size: nat, base: nat)
    requires TsShape(s, size, base) && HeaderIs(b, s, base)
    ensures FromU32(b[1..5]) == TS_MAGIC && Decode(b[0..1], SECTOR_STATUS_NUM) == s.status.Index()
    ensures s.status in {Using, Full} ==> FromU32(b[5..9]) == s.start
    ensures Decode(b[17..18], TSL_STATUS_NUM) == (if s.status == Full then TSL_WRITE else 0)
    ensures Decode(b[26..27], TSL_STATUS_NUM) == 0
    ensures s.status == Full ==>
              FromU32(b[9..13]) == LastTime(s.entries) && FromU32(b[13..17]) == base + EmptyIdx(s.entries) - TS_IDX
  {
    hide StatusByte, U32, Decode, DataLen;
    EncodeOneByte(SECTOR_STATUS_NUM, s.status.Index());
    EncodeOneByte(TSL_STATUS_NUM, TSL_WRITE);
    EncodeOneByte(TSL_STATUS_NUM, 0);
    ErasedIsStatus();
    FromU32OfU32(TS_MAGIC);
    FromU32OfU32(s.start);
    assert b[0..1] == [b[0]];
    assert b[17..18] == [b[9..18][8]];
    assert b[26..27] == [b[18..TS_HDR][8]];
    if s.status == Full {
      var e := b[9..18];
      FromU32OfU32(LastTime(s.entries));
      FromU32OfU32(base + EmptyIdx(s.entries) - TS_IDX);
      TwoWords(U32(LastTime(s.entries)), U32(base + EmptyIdx(s.entries) - TS_IDX), [StatusByte(TSL_WRITE)]);
      SubSlice(b, 9, 9, 0, 4);
      SubSlice(b, 9, 9, 4, 8);
    }
  }

  lemma OkParts(mem: Memory, secs: Sectors, size: nat, sec: nat)
    requires TsFaithful(mem, secs, size) && sec < |secs|
    ensures sec < |mem| && TsShape(secs[sec], size, Base(size, sec))
    ensures TsBytes(mem[sec], secs[sec], size, Base(size, sec)) && |mem[sec]| == size
  {
    hide TsShape;
    assert SectorOk(mem, secs, size, sec);
  }

  // ----- walking the log -----

  /** What the iterators rely on for a sector with entries. */
  ghost predicate Spans(info: TsInfo, s: TsSector) {
    && s.entries != [] && info.status == s.status && info.startTime == s.entries[0].time
    && info.endTime == LastTime(s.entries)
    && info.endIdx == EmptyIdx(s.entries) - TS_IDX
  }

  /** In a ring between appends only the current sector is in use. */
  lemma OnlyCurInUse(secs: Sectors, oldest: nat, cur: nat, sec: nat)
    requires InRing(secs, oldest, cur) && sec < |secs| && secs[sec].status == Using
    ensures sec == cur
  {
    RingCur(secs, oldest, sec);
    SameDist(oldest, |secs|, sec, cur);
  }

  /** Behind an empty sector there are only empty ones. */
  lemma {:induction false} ListOfEmpty(secs: Sectors, size: nat, oldest: nat, k: nat)
    requires oldest < |secs| && forall m :: k <= m < |secs| ==> secs[SectorAfter(oldest, |secs|, m)].entries == []
    ensures ListFrom(secs, size, oldest, k) == []
    decreases |secs| - k
  {
    if k < |secs| {
      ListOfEmpty(secs, size, oldest, k + 1);
    }
  }

  lemma EmptyAhead(secs: Sectors, oldest: nat, cur: nat, k: nat, history: seq<Entry>, lastTime: int)
    requires InRing(secs, oldest, cur) && CurOk(secs, oldest, cur, history, lastTime) && k < |secs|
    requires secs[SectorAfter(oldest, |secs|, k)].status == Empty
    requires forall i :: 0 <= i < |secs| && secs[i].status == Empty ==> secs[i].entries == []
    ensures forall m :: k <= m < |secs| ==> secs[SectorAfter(oldest, |secs|, m)].entries == []
  {
    RingCur(secs, oldest, cur);
  }

  lemma ListNext(secs: Sectors, size: nat, oldest: nat, k: nat)
    requires oldest < |secs| && k < |secs|
    ensures ListFrom(secs, size, oldest, k) == Descs(secs, size, SectorAfter(oldest, |secs|, k))
                + ListFrom(secs, size, oldest, k + 1)
    ensures ListFrom(secs, size, oldest, |secs|) == []
  {
  }

  lemma NoDescs(secs: Sectors, size: nat, sec: nat)
    requires sec < |secs| && secs[sec].entries == []
    ensures Descs(secs, size, sec) == []
  {
  }

  /** After `k` sectors: what was delivered and what is still ahead make up the whole list. */
  ghost predicate ListAt(secs: Sectors, size: nat, oldest: nat, k: nat, out: seq<Tsl>) {
    oldest < |secs| && out + ListFrom(secs, size, oldest, k) == ListFrom(secs, size, oldest, 0)
  }

  lemma ListBegins(secs: Sectors, size: nat, oldest: nat)
    requires oldest < |secs|
    ensures ListAt(secs, size, oldest, 0, [])
  {
    hide ListFrom;
  }

  lemma ListTook(secs: Sectors, size: nat, oldest: nat, k: nat, sec: nat, out: seq<Tsl>, part: seq<Tsl>)
    requires ListAt(secs, size, oldest, k, out) && k < |secs| && sec == SectorAfter(oldest, |secs|, k)
    requires part == Descs(secs, size, sec)
    ensures ListAt(secs, size, oldest, k + 1, out + part)
  {
    hide ListFrom, Descs;
    ListNext(secs, size, oldest, k);
    Regrouped(out, part, ListFrom(secs, size, oldest, k + 1));
  }

  lemma ListSkips(secs: Sectors, size: nat, oldest: nat, k: nat, sec: nat, out: seq<Tsl>)
    requires ListAt(secs, size, oldest, k, out) && k < |secs| && sec == SectorAfter(oldest, |secs|, k)
    requires secs[sec].entries == []
    ensures ListAt(secs, size, oldest, k + 1, out)
  {
    hide ListFrom, Descs;
    NoDescs(secs, size, sec);
    ListTook(secs, size, oldest, k, sec, out, []);
    assert out + [] == out;
  }

  lemma ListEnds(secs: Sectors, size: nat, oldest: nat, out: seq<Tsl>)
    requires ListAt(secs, size, oldest, |secs|, out)
    ensures out == ListFrom(secs, size, oldest, 0)
  {
    hide ListFrom;
    ListNext(secs, size, oldest, 0);
  }

  function Rev<T>(s: seq<T>): (r: seq<T>)
    ensures |r| == |s|
    ensures forall i :: 0 <= i < |s| ==> r[i] == s[|s| - 1 - i]
  {
    seq(|s|, i requires 0 <= i < |s| => s[|s| - 1 - i])
  }

  lemma RevConcat<T>(s: seq<T>, t: seq<T>)
    ensures Rev(s + t) == Rev(t) + Rev(s)
  {
  }

  // ----- entries in a range of time -----

  /** The descriptions with a time from `from` to `to`, in their order. */
  function Between(s: seq<Tsl>, from: int, to: int): seq<Tsl> {
    if s == [] then [] else (if from <= s[0].time <= to then [s[0]] else []) + Between(s[1..], from, to)
  }

  lemma Regrouped(a: seq<Tsl>, b: seq<Tsl>, c: seq<Tsl>)
    ensures a + (b + c) == (a + b) + c
  {
  }

  lemma BetweenHead(s: seq<Tsl>, rest: seq<Tsl>, from: int, to: int)
    requires s != [] && rest == s[1..]
    ensures Between(s, from, to) == (if from <= s[0].time <= to then [s[0]] else []) + Between(rest, from, to)
  {
  }

  lemma {:induction false} BetweenConcat(s: seq<Tsl>, t: seq<Tsl>, from: int, to: int)
    ensures Between(s + t, from, to) == Between(s, from, to) + Between(t, from, to)
  {
    if s == [] {
      assert s + t == t;
    } else {
      hide Between;
      BetweenConcat(s[1..], t, from, to);
      assert (s + t)[1..] == s[1..] + t;
      BetweenHead(s, s[1..], from, to);
      BetweenHead(s + t, s[1..] + t, from, to);
      Regrouped(if from <= s[0].time <= to then [s[0]] else [], Between(s[1..], from, to), Between(t, from, to));
    }
  }

  lemma {:induction false} BetweenNone(s: seq<Tsl>, from: int, to: int)
    requires forall i :: 0 <= i < |s| ==> !(from <= s[i].time <= to)
    ensures Between(s, from, to) == []
  {
    if s != [] {
      BetweenNone(s[1..], from, to);
    }
  }

  /** One description more. */
  lemma BetweenUpTo(s: seq<Tsl>, i: nat, from: int, to: int)
    requires i < |s|
    ensures Between(s[..i + 1], from, to)
         == Between(s[..i], from, to) + (if from <= s[i].time <= to then [s[i]] else [])
  {
    assert s[..i + 1] == s[..i] + [s[i]];
    BetweenConcat(s[..i], [s[i]], from, to);
    assert [s[i]][1..] == [];
  }

  /** Nothing from `i` on is in the range. */
  lemma BetweenRest(s: seq<Tsl>, i: nat, from: int, to: int)
    requires i <= |s| && forall k :: i <= k < |s| ==> !(from <= s[k].time <= to)
    ensures Between(s, from, to) == Between(s[..i], from, to)
  {
    BetweenNone(s[i..], from, to);
    BetweenConcat(s[..i], s[i..], from, to);
    assert s[..i] + s[i..] == s;
  }

  /** Entry `i` is the first one that is not earlier than `from`. */
  ghost predicate FirstFrom(es: seq<Entry>, from: int, i: nat) {
    i < |es| && forall j :: 0 <= j < |es| ==> (es[j].time >= from <==> j >= i)
  }

  /** The entry whose index slot a search has found. */
  ghost function TheFirst(es: seq<Entry>, from: int, off: nat): (i: nat)
    requires exists i: nat :: FirstFrom(es, from, i) && off == IdxOff(i)
    ensures i < |es| && off == IdxOff(i) && forall j :: 0 <= j < |es| ==> (es[j].time >= from <==> j >= i)
  {
    var i: nat :| FirstFrom(es, from, i) && off == IdxOff(i); i
  }

  ghost predicate NoneBefore(s: seq<Tsl>, from: int) {
    forall i :: 0 <= i < |s| ==> s[i].time >= from
  }

  lemma NoneBetween(s: seq<Tsl>, from: int, to: int)
    requires NoneBefore(s, to + 1)
    ensures Between(s, from, to) == []
  {
    BetweenNone(s, from, to);
  }

  lemma {:induction false} ListTimes(secs: Sectors, size: nat, oldest: nat, k: nat)
    requires oldest < |secs|
    ensures |ListFrom(secs, size, oldest, k)| == |LogFrom(secs, oldest, k)|
    ensures forall j ::
              0 <= j < |LogFrom(secs, oldest, k)| ==>
                ListFrom(secs, size, oldest, k)[j].time == LogFrom(secs, oldest, k)[j].time
    decreases |secs| - k
  {
    if k < |secs| {
      ListTimes(secs, size, oldest, k + 1);
    }
  }

  lemma LogInOrder(secs: Sectors, oldest: nat, history: seq<Entry>, dropped: nat, lastTime: int)
    requires Logged(secs, oldest, history, dropped, lastTime)
    ensures Increasing(LogFrom(secs, oldest, 0))
  {
    hide LogFrom;
  }

  lemma SplitInOrder(s: seq<Entry>, t: seq<Entry>)
    requires Increasing(s + t)
    ensures Increasing(s) && Increasing(t) && forall i, j :: 0 <= i < |s| && 0 <= j < |t| ==> s[i].time < t[j].time
  {
    var u := s + t;
    forall i, j | 0 <= i < |s| && 0 <= j < |t| ensures s[i].time < t[j].time {
      assert u[i] == s[i] && u[|s| + j] == t[j];
    }
    forall i | 0 <= i < |t| ensures 0 < t[i].time < TIME_LIMIT {
      assert u[|s| + i] == t[i];
    }
    forall i, j | 0 <= i < j < |t| ensures t[i].time < t[j].time {
      assert u[|s| + i] == t[i] && u[|s| + j] == t[j];
    }
    forall i | 0 <= i < |s| ensures 0 < s[i].time < TIME_LIMIT {
      assert u[i] == s[i];
    }
    forall i, j | 0 <= i < j < |s| ensures s[i].time < s[j].time {
      assert u[i] == s[i] && u[j] == s[j];
    }
  }

  /** The entries of a sector are in order, and so is what follows. */
  lemma InOrderNext(secs: Sectors, size: nat, oldest: nat, k: nat)
    requires oldest < |secs| && k < |secs| && Increasing(LogFrom(secs, oldest, k))
    ensures Increasing(secs[SectorAfter(oldest, |secs|, k)].entries) && Increasing(LogFrom(secs, oldest, k + 1))
  {
    hide Increasing;
    SplitInOrder(secs[SectorAfter(oldest, |secs|, k)].entries, LogFrom(secs, oldest, k + 1));
  }

  /** Everything behind a sector is later than its last entry. */
  lemma LaterOnes(secs: Sectors, size: nat, oldest: nat, k: nat, from: int)
    requires oldest < |secs| && k < |secs| && Increasing(LogFrom(secs, oldest, k))
    requires var es := secs[SectorAfter(oldest, |secs|, k)].entries; es != [] && LastTime(es) >= from
    ensures NoneBefore(ListFrom(secs, size, oldest, k + 1), from)
  {
    hide Increasing, ListFrom;
    SplitInOrder(secs[SectorAfter(oldest, |secs|, k)].entries, LogFrom(secs, oldest, k + 1));
    ListTimes(secs, size, oldest, k + 1);
  }

  /** The test for entering a sector: its last entry is not too early. */
  lemma EnteredLate(secs: Sectors, size: nat, oldest: nat, k: nat, sec: nat, found: bool, from: int)
    requires oldest < |secs| && k < |secs| && sec == SectorAfter(oldest, |secs|, k) && Increasing(secs[sec].entries)
    requires secs[sec].entries != []
    requires found ==> NoneBefore(ListFrom(secs, size, oldest, k), from)
    requires found || from <= secs[sec].entries[0].time || from <= LastTime(secs[sec].entries)
    ensures from <= LastTime(secs[sec].entries)
  {
    if found {
      var d := Descs(secs, size, sec);
      assert ListFrom(secs, size, oldest, k)[|d| - 1] == d[|d| - 1];
    }
  }

  lemma AllEarlier(secs: Sectors, size: nat, sec: nat, from: int, to: int)
    requires sec < |secs| && Increasing(secs[sec].entries) && secs[sec].entries != []
    requires from > LastTime(secs[sec].entries)
    ensures Between(Descs(secs, size, sec), from, to) == []
  {
    hide Between;
    BetweenNone(Descs(secs, size, sec), from, to);
  }

  // ----- the query, sector by sector -----

  /** After `k` sectors: what was delivered and what is still ahead make up the answer. */
  ghost predicate QueryAt(secs: Sectors, size: nat, oldest: nat, k: nat, out: seq<Tsl>, found: bool, from: int,
                          to: int) {
    && oldest < |secs|
    && out + Between(ListFrom(secs, size, oldest, k), from, to) == Between(ListFrom(secs, size, oldest, 0), from, to)
    && Increasing(LogFrom(secs, oldest, k)) && (found ==> NoneBefore(ListFrom(secs, size, oldest, k), from))
  }

  lemma QueryBegins(secs: Sectors, size: nat, oldest: nat, from: int, to: int)
    requires oldest < |secs| && Increasing(LogFrom(secs, oldest, 0))
    ensures QueryAt(secs, size, oldest, 0, [], false, from, to)
  {
    hide Increasing, LogFrom, ListFrom, Between;
  }

  lemma QueryStops(secs: Sectors, size: nat, oldest: nat, k: nat, out: seq<Tsl>, found: bool, from: int, to: int)
    requires QueryAt(secs, size, oldest, k, out, found, from, to)
    requires forall m :: k <= m < |secs| ==> secs[SectorAfter(oldest, |secs|, m)].entries == []
    ensures out == Between(ListFrom(secs, size, oldest, 0), from, to)
  {
    hide Increasing, LogFrom, ListFrom;
    ListOfEmpty(secs, size, oldest, k);
  }

  lemma QueryEnters(secs: Sectors, size: nat, oldest: nat, k: nat, sec: nat, out: seq<Tsl>, found: bool, from: int,
                    to: int)
    requires QueryAt(secs, size, oldest, k, out, found, from, to) && k < |secs| && sec == SectorAfter(oldest, |secs|, k)
    requires secs[sec].entries != []
    requires found || from <= secs[sec].entries[0].time || from <= LastTime(secs[sec].entries)
    ensures Increasing(secs[sec].entries) && from <= LastTime(secs[sec].entries)
  {
    hide Increasing, LogFrom, ListFrom, Between;
    InOrderNext(secs, size, oldest, k);
    EnteredLate(secs, size, oldest, k, sec, found, from);
  }

  lemma QueryTook(secs: Sectors, size: nat, oldest: nat, k: nat, sec: nat, out: seq<Tsl>, found: bool, part: seq<Tsl>,
                  from: int, to: int)
    requires QueryAt(secs, size, oldest, k, out, found, from, to)
    requires k < |secs| && sec == SectorAfter(oldest, |secs|, k) && secs[sec].entries != []
    requires from <= LastTime(secs[sec].entries)
    requires part == Between(Descs(secs, size, sec), from, to)
    ensures QueryAt(secs, size, oldest, k + 1, out + part, true, from, to)
    ensures LastTime(secs[sec].entries) > to ==> out + part == Between(ListFrom(secs, size, oldest, 0), from, to)
  {
    hide Increasing, LogFrom, ListFrom, Between, Descs, NoneBefore;
    ListNext(secs, size, oldest, k);
    BetweenConcat(Descs(secs, size, sec), ListFrom(secs, size, oldest, k + 1), from, to);
    InOrderNext(secs, size, oldest, k);
    LaterOnes(secs, size, oldest, k, from);
    Regrouped(out, part, Between(ListFrom(secs, size, oldest, k + 1), from, to));
    if LastTime(secs[sec].entries) > to {
      LaterOnes(secs, size, oldest, k, to + 1);
      NoneBetween(ListFrom(secs, size, oldest, k + 1), from, to);
    }
  }

  lemma QuerySkips(secs: Sectors, size: nat, oldest: nat, k: nat, sec: nat, out: seq<Tsl>, from: int, to: int)
    requires QueryAt(secs, size, oldest, k, out, false, from, to)
    requires k < |secs| && sec == SectorAfter(oldest, |secs|, k) && secs[sec].entries != []
    requires from > LastTime(secs[sec].entries)
    ensures QueryAt(secs, size, oldest, k + 1, out, false, from, to)
  {
    hide Increasing, LogFrom, ListFrom, Between, Descs;
    ListNext(secs, size, oldest, k);
    BetweenConcat(Descs(secs, size, sec), ListFrom(secs, size, oldest, k + 1), from, to);
    InOrderNext(secs, size, oldest, k);
    AllEarlier(secs, size, sec, from, to);
  }
}
