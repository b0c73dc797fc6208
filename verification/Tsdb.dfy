/**
  The time-series store: append with rollover, iteration both ways, the query by time, and the
  rebuilding of the RAM cursors at start-up.
*/
module Tsdb {
  import opened Bytes
  import opened Status
  import opened NorFlash
  import opened Ring
  import opened KvLayout
  import opened TsLayout
  import opened TsImage
  import opened TsView
  import opened TsLaws

  /** The part of `fdb_err_t` an append returns. */
  datatype TsError = Ok | WriteErr | SavedFull

  const EMPTY_TS: TsSector := TsSector(Empty, 0, [])
  const NO_INFO: TsInfo := TsInfo(false, StoreUnused, 0, 0, 0, 0, 0, 0, 0, 0, 0)

  class Tsdb {
    const flash: Flash
    const maxLen: nat
    var oldest: nat
    var cur: TsInfo
    var lastTime: int
    var rollover: bool
    ghost var secs: Sectors
    /** Everything appended since the store was cleaned, and how much of it rollover has dropped. */
    ghost var history: seq<Entry>
    ghost var dropped: nat

    /** Power-up: the device as it is found, its contents spelled out by `secs` if they make sense. */
    constructor (flash: Flash, maxLen: nat, ghost secs: Sectors, ghost history: seq<Entry>, ghost dropped: nat)
      ensures this.flash == flash && this.maxLen == maxLen && this.secs == secs && this.history == history
      ensures this.dropped == dropped
      ensures oldest == 0 && cur == NO_INFO && lastTime == 0 && rollover
    {
      this.flash, this.maxLen := flash, maxLen;
      oldest, cur, lastTime, rollover := 0, NO_INFO, 0, true;
      this.secs, this.history, this.dropped := secs, history, dropped;
    }

    /** An entry of the greatest length fits an empty sector; addresses fit 32 bits. */
    ghost predicate Geometry()
      reads this, flash
    {
      && flash.Valid() && flash.secNum >= 2 && maxLen + TS_IDX + TS_HDR <= flash.secSize
      && flash.secNum * flash.secSize < U32_LIMIT
    }

    /** Flash and view agree. */
    ghost predicate Core()
      reads this, flash
    {
      Geometry() && |secs| == flash.secNum && TsFaithful(flash.mem, secs, flash.secSize)
    }

    /** Between appends: what is on flash is the end of the history, in order. */
    ghost predicate Valid()
      reads this, flash
    {
      && Core() && InRing(secs, oldest, cur.sec) && CurOk(secs, oldest, cur.sec, history, lastTime)
      && InfoIs(cur, secs[cur.sec], flash.secSize) && Logged(secs, oldest, history, dropped, lastTime)
    }

    // ----- reading -----

    /** `read_tsl` on an index slot that holds an entry. */
    method ReadTsl(sec: nat, off: nat, ghost i: nat) returns (t: Tsl)
      requires Core() && sec < |secs| && i < |secs[sec].entries| && off == IdxOff(i)
      ensures t == Desc(secs, flash.secSize, sec, i)
    {
      hide Decode, FromU32, TsShape, DataLen, IdxBytes;
      OkParts(flash.mem, secs, flash.secSize, sec);
      assert EntryIs(flash.mem[sec], secs[sec].entries, flash.secSize, Base(flash.secSize, sec), i);
      EntryReads(flash.mem[sec], secs[sec].entries, flash.secSize, Base(flash.secSize, sec), i);
      TimeFits(secs, flash.secSize, sec, i);
      t := ReadSlot(sec, off);
    }

    /** `read_tsl`: without a finished entry the length is the greatest and the time zero. */
    method ReadSlot(sec: nat, off: nat) returns (t: Tsl)
      requires flash.Valid() && sec < flash.secNum && off < flash.secSize
      requires var st := Decode(flash.mem[sec][off..off + 1], TSL_STATUS_NUM);
               st != 0 && st != TSL_PRE_WRITE ==> off + TS_IDX <= flash.secSize
      ensures var b := flash.mem[sec]; var st := Decode(b[off..off + 1], TSL_STATUS_NUM);
              t == if st == TSL_PRE_WRITE || st == 0 then Tsl(st, 0, maxLen, Addr(sec, off), UNUSED_WORD)
                   else Tsl(st, AsTime(FromU32(b[off + 4..off + 8])), FromU32(b[off + 8..off + 12]), Addr(sec, off),
                            FromU32(b[off + 12..off + 16]))
    {
      hide Decode, FromU32;
      var s := flash.Read(sec, off, 1);
      var st := GetStatus(s, TSL_STATUS_NUM);
      if st == TSL_PRE_WRITE || st == 0 {
        return Tsl(st, 0, maxLen, Addr(sec, off), UNUSED_WORD);
      }
      var time := flash.Read(sec, off + 4, 4);
      var len := flash.Read(sec, off + 8, 4);
      var addr := flash.Read(sec, off + 12, 4);
      t := Tsl(st, AsTime(FromU32(time)), FromU32(len), Addr(sec, off), FromU32(addr));
    }

    /** `fdb_blob_read` on what `fdb_tsl_to_blob` makes of a description: the bytes that were appended. */
    method ReadBlob(t: Tsl, bufLen: nat, ghost sec: nat, ghost i: nat) returns (data: seq<byte>)
      requires Core() && sec < |secs| && i < |secs[sec].entries| && t == Desc(secs, flash.secSize, sec, i)
      ensures var d := secs[sec].entries[i].data; data == d[..if bufLen > |d| then |d| else bufLen]
    {
      hide TsShape, DataLen, IdxBytes;
      OkParts(flash.mem, secs, flash.secSize, sec);
      assert EntryIs(flash.mem[sec], secs[sec].entries, flash.secSize, Base(flash.secSize, sec), i);
      var len := if bufLen > t.logLen then t.logLen else bufLen;
      ghost var off := DataOff(secs[sec].entries, flash.secSize, i);
      data := [];
      if len > 0 {
        FlatAddrSplits(flash.secSize, Addr(sec, off));
        data := flash.Read(t.log / flash.secSize, t.log % flash.secSize, len);
        assert data == flash.mem[sec][off..off + t.logLen][..len];
      }
    }

    /** The header part of `read_sector_info`; end time and index stay as they were without an end mark. */
    method ReadHeader(sec: nat, prior: TsInfo) returns (info: TsInfo)
      requires Core() && sec < |secs|
      ensures var s := secs[sec];
              && info.checkOk && info.sec == sec && info.status == s.status && info.stat1 == 0
              && info.emptyIdx == TS_HDR && info.emptyData == flash.secSize && info.remain == flash.secSize - TS_HDR
              && (s.status in {Using, Full} ==> info.startTime == s.start)
              && (s.status == Full ==>
                    info.stat0 == TSL_WRITE && info.endTime == LastTime(s.entries) &&
                    info.endIdx == EmptyIdx(s.entries) - TS_IDX)
              && (s.status != Full ==> info.stat0 == 0 && info.endTime == prior.endTime && info.endIdx == prior.endIdx)
    {
      hide Decode, FromU32, DataLen, EntryIs, U32, StatusByte;
      OkParts(flash.mem, secs, flash.secSize, sec);
      HeaderReads(flash.mem[sec], secs[sec], flash.secSize, Base(flash.secSize, sec));
      var h := flash.Read(sec, 0, TS_HDR);
      HeaderSlices(flash.mem[sec]);
      var magic := FromU32(h[1..5]);
      if magic != TS_MAGIC {
        assert false;
      }
      var st := GetStatus(h[0..1], SECTOR_STATUS_NUM);
      var stat0 := GetStatus(h[17..18], TSL_STATUS_NUM);
      var stat1 := GetStatus(h[26..27], TSL_STATUS_NUM);
      var endTime, endIdx := prior.endTime, prior.endIdx;
      if stat0 == TSL_WRITE {
        endTime := AsTime(FromU32(h[9..13]));
        endIdx := FromU32(h[13..17]) - FlatAddr(flash.secSize, Addr(sec, 0));
      } else if stat1 == TSL_WRITE {
        assert false;
      }
      info := TsInfo(true, StoreOf(st), sec, AsTime(FromU32(h[5..9])), endTime, endIdx, stat0, stat1,
                     flash.secSize - TS_HDR, TS_HDR, flash.secSize);
    }

    /** The traversal of a sector in use; it ends with an error report when the sector is exactly full. */
    method Traverse(sec: nat, header: TsInfo) returns (ok: bool, info: TsInfo)
      requires Core() && sec < |secs| && secs[sec].status == Using
      requires header == Traversed(header, secs[sec].entries, flash.secSize, 0)
      ensures info == Traversed(header, secs[sec].entries, flash.secSize, |secs[sec].entries|)
      ensures ok == (info.emptyIdx < info.emptyData)
    {
      hide TsFaithful, Traversed, DataLen, Desc, Increasing;
      info, ok := header, true;
      ghost var es, i := secs[sec].entries, 0;
      EmptyTraversed(flash.mem, secs, flash.secSize, sec, header);
      while true
        invariant 0 <= i <= |es| && info == Traversed(header, es, flash.secSize, i) && info.emptyIdx == IdxOff(i)
        invariant info.remain == info.emptyData - info.emptyIdx > 0 && ok
        decreases |es| - i
      {
        FullyTraversed(header, es, flash.secSize);
        DescWritten(secs, flash.secSize, sec);
        var t := NextSlot(sec, info.emptyIdx, i);
        if t.status == 0 {
          break;
        }
        TraversedNext(flash.mem, secs, flash.secSize, sec, header, i);
        ghost var left := info.remain;
        info := info.(endTime := t.time, endIdx := info.emptyIdx, emptyIdx := info.emptyIdx + TS_IDX,
            emptyData := info.emptyData - t.logLen);
        i := i + 1;
        if info.remain > TS_IDX + t.logLen {
          info := info.(remain := info.remain - (TS_IDX + t.logLen));
        } else {
          info, ok := info.(remain := 0), false;
          break;
        }
      }
    }

    /** A slot of a sector being traversed: the next entry, or the first unused slot. */
    method NextSlot(sec: nat, off: nat, ghost i: nat) returns (t: Tsl)
      requires Core() && sec < |secs| && i <= |secs[sec].entries| && off == IdxOff(i)
      requires i == |secs[sec].entries| ==> off < EmptyData(secs[sec].entries, flash.secSize)
      ensures if i < |secs[sec].entries| then t == Desc(secs, flash.secSize, sec, i) else t.status == 0
    {
      hide Decode, TsShape, DataLen, IdxBytes, Desc;
      OkParts(flash.mem, secs, flash.secSize, sec);
      if i == |secs[sec].entries| {
        SlotInside(secs[sec], flash.secSize, Base(flash.secSize, sec));
        UnusedReads(flash.mem[sec], off);
      } else {
        assert EntryIs(flash.mem[sec], secs[sec].entries, flash.secSize, Base(flash.secSize, sec), i);
        EntryReads(flash.mem[sec], secs[sec].entries, flash.secSize, Base(flash.secSize, sec), i);
        TimeFits(secs, flash.secSize, sec, i);
        SlotIsDesc(secs, flash.secSize, sec, i);
      }
      t := ReadSlot(sec, off);
    }

    /** `read_sector_info`; `ok` is FDB_NO_ERR. */
    method ReadSectorInfo(sec: nat, prior: TsInfo, traversal: bool) returns (ok: bool, info: TsInfo)
      requires Core() && sec < |secs|
      ensures info.sec == sec && info.status == secs[sec].status && info.checkOk
      ensures traversal || secs[sec].entries == [] ==> InfoIs(info, secs[sec], flash.secSize)
      ensures secs[sec].status == Full ==>
                ok && info.startTime == secs[sec].start && info.endTime == LastTime(secs[sec].entries) &&
                info.endIdx == EmptyIdx(secs[sec].entries) - TS_IDX
      ensures !traversal ==> ok
    {
      hide TsFaithful, DataLen, Traversed, InfoIs;
      info := ReadHeader(sec, prior);
      ok := true;
      NoEntries(secs, flash.secSize, sec, flash.mem);
      HeaderInfo(info, secs[sec], flash.secSize);
      if info.status == Using && traversal {
        ghost var header := info;
        ok, info := Traverse(sec, info);
        TraversedInfo(header, secs[sec], flash.secSize);
      }
    }

    // ----- appending -----

    /** `write_tsl` */
    method WriteTsl(e: Entry)
      requires Core() && cur.sec < |secs| && secs[cur.sec].status == Using
      requires AppendFits(secs[cur.sec], e, flash.secSize)
      requires cur.emptyIdx == EmptyIdx(secs[cur.sec].entries)
      requires cur.emptyData == EmptyData(secs[cur.sec].entries, flash.secSize)
      modifies this`secs, flash
      ensures Core() && secs == old(secs)[cur.sec := old(secs)[cur.sec].(entries := old(secs)[cur.sec].entries + [e])]
    {
      hide TsShape, TsBytes, DataLen, StatusByte, U32, SectorOk, IdxBytes;
      ghost var s, b, size, base := secs[cur.sec], flash.mem[cur.sec], flash.secSize, Base(flash.secSize, cur.sec);
      OkParts(flash.mem, secs, size, cur.sec);
      FreeErased(b, s, e, size, base);
      AppendFitsWord(s, e, size);
      var off: nat := cur.emptyData - |e.data|;
      var log := FlatAddr(flash.secSize, Addr(cur.sec, 0)) + off;
      IdxBytesIs(e, log);
      WriteEntry(cur.sec, cur.emptyIdx, off, U32(e.time) + U32(|e.data|) + U32(log), e.data);
      EntryAdded(b, flash.mem[cur.sec], s, e, size, base);
      Changed(old(flash.mem), secs, size, cur.sec, flash.mem[cur.sec], s.(entries := s.entries + [e]));
      secs := secs[cur.sec := s.(entries := s.entries + [e])];
    }

    /** The four writes of an entry. */
    method WriteEntry(sec: nat, i: nat, d: nat, w: seq<byte>, data: seq<byte>)
      requires flash.Valid() && sec < flash.secNum && i + TS_IDX <= d && d + |data| <= flash.secSize && |w| == 12
      requires (forall p :: i <= p < i + TS_IDX ==> flash.mem[sec][p] == ERASED) &&
               forall p :: d <= p < d + |data| ==> flash.mem[sec][p] == ERASED
      modifies flash
      ensures flash.Valid() && flash.mem == old(flash.mem)[sec := flash.mem[sec]]
      ensures var b, c := old(flash.mem)[sec], flash.mem[sec];
              && |c| == |b| && c[i..i + TS_IDX] == [StatusByte(TSL_WRITE)] + Ones(3) + w && c[d..d + |data|] == data
              && forall p :: 0 <= p < i || i + TS_IDX <= p < d || d + |data| <= p < |b| ==> c[p] == b[p]
    {
      hide StatusByte, And;
      ghost var b := flash.mem[sec];
      PutStatus(sec, i, TSL_STATUS_NUM, TSL_PRE_WRITE);
      ghost var b1 := flash.mem[sec];
      flash.Write(sec, i + 4, w);
      ghost var b2 := flash.mem[sec];
      flash.Write(sec, d, data);
      ghost var b3 := flash.mem[sec];
      PutStatus(sec, i, TSL_STATUS_NUM, TSL_WRITE);
      IndexAndData(b, i, d, w, data, b1, b2, b3, flash.mem[sec]);
    }

    method PutStatus(sec: nat, off: nat, num: nat, st: nat)
      requires flash.Valid() && sec < flash.secNum && off < flash.secSize && 0 < st < num <= 8
      modifies flash
      ensures flash.Valid() && flash.mem == old(flash.mem)[sec := Program(old(flash.mem)[sec], off, [StatusByte(st)])]
    {
      hide StatusByte, And, Decode, Encode;
      EncodeOneByte(num, st);
      flash.WriteStatus(sec, off, num, st);
    }

    /** The end information and FULL, as `update_sec_status` writes them. */
    method CloseSector(sec: nat, time: int, endIdx: nat)
      requires Core() && sec < |secs| && secs[sec].status == Using && secs[sec].entries != []
      requires time == LastTime(secs[sec].entries) && endIdx == EmptyIdx(secs[sec].entries) - TS_IDX
      modifies this`secs, flash
      ensures Core() && secs == old(secs)[sec := old(secs)[sec].(status := Full)]
    {
      hide TsShape, TsBytes, DataLen, StatusByte, U32, SectorOk, And;
      ghost var s, b, size, base := secs[sec], flash.mem[sec], flash.secSize, Base(flash.secSize, sec);
      OkParts(flash.mem, secs, size, sec);
      EndErased(b, s, size, base);
      EndWords(s, size, base);
      WriteEnd(sec, U32(time as int), U32(FlatAddr(flash.secSize, Addr(sec, 0)) + endIdx));
      CloseBytes(b, s, size, base, flash.mem[sec]);
      PutStatus(sec, 0, SECTOR_STATUS_NUM, Full.Index());
      assert flash.mem == old(flash.mem)[sec := flash.mem[sec]];
      Changed(old(flash.mem), secs, size, sec, flash.mem[sec], s.(status := Full));
      secs := secs[sec := s.(status := Full)];
    }

    method WriteEnd(sec: nat, w: seq<byte>, x: seq<byte>)
      requires flash.Valid() && sec < flash.secNum && TS_HDR <= flash.secSize && |w| == |x| == 4 &&
               forall p :: 9 <= p < 18 ==> flash.mem[sec][p] == ERASED
      modifies flash
      ensures flash.Valid() && flash.mem == old(flash.mem)[sec := flash.mem[sec]]
      ensures var b, c := old(flash.mem)[sec], flash.mem[sec];
              && |c| == |b| && c[9..18] == w + x + [StatusByte(TSL_WRITE)] && forall p ::
                     0 <= p < 9 || 18 <= p < |b| ==> c[p] == b[p]
    {
      hide StatusByte, And;
      ghost var b := flash.mem[sec];
      PutStatus(sec, 17, TSL_STATUS_NUM, TSL_PRE_WRITE);
      ghost var b1 := flash.mem[sec];
      flash.Write(sec, 9, w);
      ghost var b2 := flash.mem[sec];
      flash.Write(sec, 13, x);
      ghost var b3 := flash.mem[sec];
      PutStatus(sec, 17, TSL_STATUS_NUM, TSL_WRITE);
      EndWritten(b, w, x, b1, b2, b3, flash.mem[sec]);
    }

    /** EMPTY to USING, with the time stamp of the entry that opens the sector. */
    method OpenSector(sec: nat, time: nat)
      requires Core() && sec < |secs| && secs[sec].status == Empty && time < TIME_LIMIT
      modifies this`secs, flash
      ensures Core() && secs == old(secs)[sec := TsSector(Using, time, [])]
    {
      hide TsShape, TsBytes, DataLen, StatusByte, U32, SectorOk, And;
      ghost var s, b, size, base := secs[sec], flash.mem[sec], flash.secSize, Base(flash.secSize, sec);
      OkParts(flash.mem, secs, size, sec);
      OpenBytes(b, s, size, base, time);
      PutStatus(sec, 0, SECTOR_STATUS_NUM, Using.Index());
      flash.Write(sec, 5, U32(time));
      Changed(old(flash.mem), secs, size, sec, flash.mem[sec], TsSector(Using, time, []));
      assert flash.mem == old(flash.mem)[sec := flash.mem[sec]];
      secs := secs[sec := TsSector(Using, time, [])];
    }

    /** `format_sector`, whatever the sector held. */
    method Format(sec: nat)
      requires Geometry() && sec < flash.secNum
      modifies flash
      ensures Geometry() && flash.mem == old(flash.mem)[sec := flash.mem[sec]]
      ensures TsShape(EMPTY_TS, flash.secSize, Base(flash.secSize, sec))
      ensures TsBytes(flash.mem[sec], EMPTY_TS, flash.secSize, Base(flash.secSize, sec))
    {
      hide TsShape, TsBytes, StatusByte, U32, And;
      BaseFits(flash.secSize, flash.secNum, sec);
      FormatBytes(flash.secSize, Base(flash.secSize, sec));
      flash.Erase(sec);
      PutStatus(sec, 0, SECTOR_STATUS_NUM, Empty.Index());
      flash.Write(sec, 1, U32(TS_MAGIC));
    }

    method FormatSector(sec: nat)
      requires Core() && sec < |secs|
      modifies this`secs, flash
      ensures Core() && secs == old(secs)[sec := EMPTY_TS]
    {
      hide TsShape, TsBytes;
      Format(sec);
      Changed(old(flash.mem), secs, flash.secSize, sec, flash.mem[sec], EMPTY_TS);
      secs := secs[sec := EMPTY_TS];
    }

    /** Ready to write an entry of this length and time. */
    ghost predicate RoomFor(len: nat, time: int)
      reads this, flash
    {
      && Core() && InRing(secs, oldest, cur.sec) && HasPlace(secs[cur.sec], flash.secSize, len, time, lastTime)
      && InfoIs(cur, secs[cur.sec], flash.secSize) && Logged(secs, oldest, history, dropped, lastTime)
    }

    /**
      The next append will be refused: everything is closed, or the last sector is too full and there is no
      rollover.
    */
    ghost predicate Refuses(len: nat)
      requires cur.sec < |secs|
      reads this, flash
    {
      var s := secs[cur.sec];
      s.status == Full || (Closing(len) && cur.sec + 1 == flash.secNum && !rollover)
    }

    /** The current sector has no room for an entry of this length. */
    ghost predicate Closing(len: nat)
      requires cur.sec < |secs|
      reads this
    {
      secs[cur.sec].status == Using && cur.remain < TS_IDX + len
    }

    /** The next append will give up the oldest sector: the current one is too full and none is empty. */
    ghost predicate Overwrites(len: nat)
      requires cur.sec < |secs| && oldest < |secs|
      reads this
    {
      Closing(len) && Dist(oldest, |secs|, cur.sec) + 1 == |secs|
    }

    /** The closing part of `update_sec_status`: end information, FULL, and the sector that comes next. */
    method NextCurrent() returns (err: TsError)
      requires Valid() && secs[cur.sec].status == Using
      modifies this`secs, this`cur, this`oldest, this`dropped, flash
      ensures Core() && InRing(secs, oldest, cur.sec) && Logged(secs, oldest, history, dropped, lastTime)
      ensures err == if old(cur.sec) + 1 == flash.secNum && !rollover then SavedFull else Ok
      ensures err == SavedFull ==>
                Valid() && cur.sec == old(cur.sec) && oldest == old(oldest) && dropped == old(dropped)
      ensures err == SavedFull ==> secs == old(secs)[cur.sec := old(secs)[cur.sec].(status := Full)]
      ensures err == Ok ==>
                secs[cur.sec].status == Empty && secs[cur.sec].entries == [] &&
                InfoIs(cur, secs[cur.sec], flash.secSize)
      ensures err == Ok ==> cur.sec == NextSector(flash.secNum, old(cur.sec))
      ensures err == Ok ==>
                secs == old(secs)[old(cur.sec) := old(secs)[old(cur.sec)].(status := Full)][cur.sec := secs[cur.sec]]
      ensures err == Ok ==>
                if old(Dist(oldest, |secs|, cur.sec)) + 1 < flash.secNum then oldest == old(oldest) &&
                    dropped == old(dropped)
                            else oldest == NextSector(flash.secNum, old(oldest)) &&
                                 dropped == old(dropped) + |old(secs)[old(oldest)].entries|
    {
      hide TsFaithful, DataLen, LogFrom, Increasing, RingShape, SectorAfter, Logged, InRing;
      ghost var a, o := secs, oldest;
      InRingBounds(a, o, cur.sec);
      if cur.stat0 == 0 {
        CloseSector(cur.sec, lastTime, cur.emptyIdx - TS_IDX);
      } else if cur.stat1 == 0 {
        assert false;
      }
      cur := cur.(status := Full);
      ghost var b := secs;
      Closed(a, o, cur.sec, history, dropped, lastTime);
      var next: nat;
      if cur.sec + 1 < flash.secNum {
        next := cur.sec + 1;
      } else if rollover {
        next := 0;
      } else {
        InRingAtEnd(b, o, cur.sec);
        return SavedFull;
      }
      Advanced(b, o, cur.sec, history, dropped, lastTime);
      err := Ok;
      TakeSector(next);
    }

    /** Reading the sector that comes next, and overwriting it if it is not empty. */
    method TakeSector(next: nat)
      requires Core() && next < |secs| && oldest < |secs|
      modifies this`secs, this`cur, this`oldest, this`dropped, flash
      ensures Core() && cur.sec == next && secs[next].status == Empty && secs[next].entries == []
      ensures InfoIs(cur, secs[next], flash.secSize)
      ensures if old(secs)[next].status == Empty then secs == old(secs) && oldest == old(oldest) &&
                  dropped == old(dropped)
              else secs == old(secs)[next := EMPTY_TS] && oldest == NextSector(|secs|, next) &&
                   dropped == old(dropped) + |old(secs)[next].entries|
    {
      hide TsFaithful, DataLen, InfoIs;
      NoEntries(secs, flash.secSize, next, flash.mem);
      var ok;
      ok, cur := ReadSectorInfo(next, cur, false);
      if cur.status != Empty {
        oldest := if next + 1 < flash.secNum then next + 1 else 0;
        dropped := dropped + |secs[next].entries|;
        FormatSector(next);
        ok, cur := ReadSectorInfo(next, cur, false);
      }
    }

    /** `update_sec_status` */
    method UpdateSecStatus(len: nat, time: int) returns (err: TsError)
      requires Valid() && len <= maxLen && 0 <= lastTime < time < TIME_LIMIT
      modifies this`secs, this`cur, this`oldest, this`dropped, flash
      ensures err == if old(Refuses(len)) then SavedFull else Ok
      ensures err == SavedFull ==>
                Valid() && cur.sec == old(cur.sec) && oldest == old(oldest) && dropped == old(dropped)
      ensures err == SavedFull ==> secs == old(secs)[cur.sec := old(secs)[cur.sec].(status := Full)]
      ensures err == Ok ==> RoomFor(len, time)
      ensures err == Ok ==>
                oldest == if old(Overwrites(len)) then NextSector(flash.secNum, old(oldest)) else old(oldest)
      ensures err == Ok ==> secs == Ready(old(secs), old(cur.sec), old(Closing(len)), time)
      ensures err == Ok ==>
                cur.sec == if old(Closing(len)) then NextSector(flash.secNum, old(cur.sec)) else old(cur.sec)
      ensures err == Ok ==>
                dropped == old(dropped) + (if old(Overwrites(len)) then |old(secs)[old(oldest)].entries| else 0)
    {
      hide TsFaithful, DataLen, Logged, InRing, Dist;
      InRingBounds(secs, oldest, cur.sec);
      if cur.status == Using && cur.remain < TS_IDX + len {
        err := NextCurrent();
        if err != Ok {
          return;
        }
        InRingBounds(secs, oldest, cur.sec);
      } else if cur.status == Full {
        return SavedFull;
      }
      if cur.status == Empty {
        Opened(secs, oldest, cur.sec, history, dropped, lastTime, time, flash.secSize, len);
        cur := cur.(status := Using, startTime := time);
        OpenSector(cur.sec, time);
      }
      err := Ok;
    }

    /** `tsl_append` with a time stamp that was given or read from the clock. */
    method Append(data: seq<byte>, time: int) returns (err: TsError)
      requires Valid() && time < TIME_LIMIT
      modifies this`secs, this`cur, this`oldest, this`dropped, this`history, this`lastTime, flash
      ensures Valid()
      ensures err == if |data| > maxLen ||
              time <= old(lastTime) then WriteErr else if old(Refuses(|data|)) then SavedFull else Ok
      ensures history == if err == Ok then old(history) + [Entry(time, data)] else old(history)
      ensures err == if |data| > maxLen || time <= old(lastTime) then WriteErr
                     else if NowhereToGo(old(secs), old(cur.sec), rollover, flash.secSize, |data|) then SavedFull
                     else Ok
      ensures err == Ok ==>
                Accepted(old(secs), old(cur.sec), old(oldest), old(dropped), flash.secSize, Entry(time, data), secs,
                         cur.sec, oldest, dropped)
      ensures err == Ok ==>
                dropped == old(dropped) + (if old(Overwrites(|data|)) then |old(secs)[old(oldest)].entries| else 0)
      ensures err == Ok ==>
                cur.sec == if old(Closing(|data|)) then NextSector(flash.secNum, old(cur.sec)) else old(cur.sec)
      ensures err == Ok ==>
                secs == WithEntry(Ready(old(secs), old(cur.sec), old(Closing(|data|)), time), cur.sec,
                    Entry(time, data))
      ensures err == Ok ==>
                oldest == if old(Overwrites(|data|)) then NextSector(flash.secNum, old(oldest)) else old(oldest)
      ensures err == SavedFull ==> cur.sec == old(cur.sec) && oldest == old(oldest) && dropped == old(dropped)
      ensures err == SavedFull ==> secs == old(secs)[cur.sec := old(secs)[cur.sec].(status := Full)]
      ensures err == WriteErr ==>
                secs == old(secs) && cur == old(cur) && oldest == old(oldest) && dropped == old(dropped)
    {
      hide TsFaithful, DataLen, Logged, InRing, Dist, CurOk, InfoIs, Accepted, Closing, Overwrites, Refuses, Ready,
           WithEntry;
      InRingBounds(secs, oldest, cur.sec);
      PlainRules(|data|);
      ghost var a, sec, o, d, closing, over := secs, cur.sec, oldest, dropped, Closing(|data|), Overwrites(|data|);
      if |data| > maxLen || time <= lastTime {
        return WriteErr;
      }
      LoggedBounds(secs, oldest, history, dropped, lastTime);
      err := UpdateSecStatus(|data|, time);
      if err != Ok {
        return;
      }
      InRingBounds(secs, oldest, cur.sec);
      AppendEntry(Entry(time, data));
      AcceptedIs(a, sec, o, d, flash.secSize, Entry(time, data), closing, over, secs, cur.sec, oldest, dropped);
    }

    /** Closing and refusing in terms of the sectors. */
    lemma PlainRules(len: nat)
      requires Valid()
      ensures cur.sec < |secs| && oldest < |secs| && InRing(secs, oldest, cur.sec) && |secs| >= 2
      ensures secs[cur.sec].status in {Using, Empty, Full}
      ensures secs[cur.sec].status == Empty ==> secs[cur.sec].entries == []
      ensures Closing(len) <==> secs[cur.sec].status == Using && !Takes(secs[cur.sec].entries, flash.secSize, len)
      ensures Refuses(len) <==> NowhereToGo(secs, cur.sec, rollover, flash.secSize, len)
      ensures Overwrites(len) <==> Closing(len) && Dist(oldest, |secs|, cur.sec) + 1 == |secs|
      ensures Refuses(len) || secs[cur.sec].status in {Using, Empty}
    {
      hide TsFaithful, DataLen, Logged, RingShape, Dist, Takes;
      RoomIs(secs[cur.sec].entries, flash.secSize, len);
      CurStatus(secs, oldest, cur.sec, history, lastTime);
    }

    /** Writing the entry and moving the cursors, as `tsl_append` does at its end. */
    method AppendEntry(e: Entry)
      requires RoomFor(|e.data|, e.time) && 0 <= lastTime < e.time < TIME_LIMIT
      modifies this`secs, this`cur, this`history, this`lastTime, flash
      ensures Valid() && history == old(history) + [e] && secs == WithEntry(old(secs), old(cur.sec), e)
      ensures cur.sec == old(cur.sec)
    {
      hide TsFaithful, DataLen, Logged, InRing, Dist, CurOk;
      InRingBounds(secs, oldest, cur.sec);
      ghost var a, s := secs, secs[cur.sec];
      NoneBehind(a, flash.secSize, flash.mem);
      Appended(a, oldest, cur.sec, history, dropped, lastTime, e, flash.secSize);
      DataLenMore(s.entries, e);
      WriteTsl(e);
      cur := cur.(endIdx := cur.emptyIdx, endTime := e.time, emptyIdx := cur.emptyIdx + TS_IDX,
          emptyData := cur.emptyData - |e.data|,
                  remain := cur.remain - (TS_IDX + |e.data|));
      lastTime := e.time;
      history := history + [e];
    }

    // ----- iterating -----

    /** What the iterators do to learn about a sector: read it, but take the current one from RAM. */
    method SectorToIterate(sec: nat, prior: TsInfo) returns (info: TsInfo)
      requires Valid() && sec < |secs|
      ensures info.sec == sec && info.status == secs[sec].status
      ensures secs[sec].status in {Using, Full} ==> Spans(info, secs[sec])
      ensures secs[sec].status == Empty ==> secs[sec].entries == []
      ensures secs[sec].status in {Empty, Using, Full}
    {
      hide TsFaithful, DataLen, Logged, InRing;
      var ok;
      ok, info := ReadSectorInfo(sec, prior, false);
      NoEntries(secs, flash.secSize, sec, flash.mem);
      StartIsFirst(secs, flash.secSize, sec, flash.mem);
      if info.status == Using {
        OnlyCurInUse(secs, oldest, cur.sec, sec);
        info := cur;
      }
    }

    /** The entry loop of `fdb_tsl_iter` in one sector. */
    method IterSector(info: TsInfo) returns (out: seq<Tsl>)
      requires Core() && info.sec < |secs| && Spans(info, secs[info.sec])
      ensures out == Descs(secs, flash.secSize, info.sec)
    {
      hide TsFaithful, DataLen, Desc;
      ghost var n, i := |secs[info.sec].entries|, 0;
      var off := TS_HDR;
      out := [];
      while true
        invariant 0 <= i < n && off == IdxOff(i) && out == Descs(secs, flash.secSize, info.sec)[..i]
        decreases n - i
      {
        var t := ReadTsl(info.sec, off, i);
        out := out + [t];
        i := i + 1;
        if off + TS_IDX <= info.endIdx {
          off := off + TS_IDX;
        } else {
          break;
        }
      }
    }

    /** `fdb_tsl_iter` with a callback that collects what it is given. */
    method Iter() returns (out: seq<Tsl>)
      requires Valid()
      ensures out == ListFrom(secs, flash.secSize, oldest, 0)
    {
      hide TsFaithful, DataLen, Logged, InRing, InfoIs, CurOk, SectorAfter, Descs, ListFrom, Spans, ListAt;
      InRingBounds(secs, oldest, cur.sec);
      var sec, k, info := oldest, 0, NO_INFO;
      out := [];
      AfterShift(oldest, |secs|, 0);
      ListBegins(secs, flash.secSize, oldest);
      while k < flash.secNum
        invariant k <= flash.secNum && (k < flash.secNum ==> sec == SectorAfter(oldest, |secs|, k))
        invariant ListAt(secs, flash.secSize, oldest, k, out)
      {
        info := SectorToIterate(sec, info);
        if info.status == Using || info.status == Full {
          var part := IterSector(info);
          ListTook(secs, flash.secSize, oldest, k, sec, out, part);
          out := out + part;
        } else {
          ListSkips(secs, flash.secSize, oldest, k, sec, out);
        }
        k := k + 1;
        if k < flash.secNum {
          NextAfter(oldest, |secs|, k);
          sec := NextSector(flash.secNum, sec);
        }
      }
      ListEnds(secs, flash.secSize, oldest, out);
    }

    /** The entry loop of `fdb_tsl_iter_reverse` in one sector. */
    method IterSectorBack(info: TsInfo) returns (out: seq<Tsl>)
      requires Core() && info.sec < |secs| && Spans(info, secs[info.sec])
      ensures out == Rev(Descs(secs, flash.secSize, info.sec))
    {
      hide TsFaithful, DataLen, Desc;
      ghost var all := Descs(secs, flash.secSize, info.sec);
      ghost var i := |all| - 1;
      var off: nat := info.endIdx;
      out := [];
      while true
        invariant 0 <= i < |all| && off == IdxOff(i) && out == Rev(all)[..|all| - 1 - i]
        decreases i
      {
        var t := ReadTsl(info.sec, off, i);
        out := out + [t];
        if off >= TS_HDR + TS_IDX {
          off := off - TS_IDX;
          i := i - 1;
        } else {
          break;
        }
      }
    }

    /** `fdb_tsl_iter_reverse`: the list of `fdb_tsl_iter` backwards. */
    method IterReverse() returns (out: seq<Tsl>)
      requires Valid()
      ensures out == Rev(ListFrom(secs, flash.secSize, oldest, 0))
    {
      hide TsFaithful, DataLen, Logged, InfoIs, Descs, ListFrom, Spans, Rev, InRing, CurOk, BackAt;
      InRingBounds(secs, oldest, cur.sec);
      NoneBehind(secs, flash.secSize, flash.mem);
      BackStarts(secs, flash.secSize, oldest, cur.sec);
      var sec: nat, k: nat, info := cur.sec, 0, NO_INFO;
      out := [];
      while k < flash.secNum
        invariant k <= flash.secNum && sec < flash.secNum && BackAt(secs, flash.secSize, oldest, cur.sec, k, sec, out)
      {
        info := SectorToIterate(sec, info);
        if info.status == Using || info.status == Full {
          var part := IterSectorBack(info);
          BackSector(secs, flash.secSize, oldest, cur.sec, k, sec, out, part);
          out := out + part;
        } else {
          BackStops(secs, flash.secSize, oldest, cur.sec, k, sec, out, history, lastTime);
          return;
        }
        k, sec := k + 1, PrevSector(flash.secNum, sec);
      }
      BackEnds(secs, flash.secSize, oldest, cur.sec, k, sec, out);
    }

    // ----- the query by time -----

    /**
      `search_start_tsl_addr` for `from <= to`: halving the index range ends at the first entry that
      is not earlier than `from`.
    */
    method SearchStart(sec: nat, first: nat, last: nat, from: int) returns (off: nat)
      requires Core() && sec < |secs| && secs[sec].entries != [] && first == TS_HDR
      requires last == EmptyIdx(secs[sec].entries) - TS_IDX
      requires Increasing(secs[sec].entries) && from <= LastTime(secs[sec].entries)
      ensures exists i: nat :: FirstFrom(secs[sec].entries, from, i) && off == IdxOff(i)
    {
      hide Core, DataLen, Desc, Increasing, Within, FirstFrom, Middle;
      ghost var es, lo, hi := secs[sec].entries, 0, |secs[sec].entries| as int - 1;
      WithinAll(es, from);
      var start: int, end: int := first, last;
      while true
        invariant 0 <= lo <= hi < |es| && start == IdxOff(lo) && end == TS_HDR + TS_IDX * hi
        invariant Within(es, from, lo, hi)
        decreases hi - lo
      {
        var mid := start + AlignUp((end - start) / 2, TS_IDX);
        ghost var m: nat := Middle(lo, hi);
        var t := ReadTsl(sec, mid, m);
        DescTime(secs, flash.secSize, sec, m);
        Narrows(es, from, lo, hi, m);
        if t.time < from {
          start := mid + TS_IDX;
          lo := m + 1;
        } else if t.time > from {
          end := mid - TS_IDX;
          hi := m - 1;
        } else {
          return mid;
        }
        if start > end {
          break;
        }
      }
      Meets(es, from, lo, hi);
      off := start;
    }

    /** The entry loop of `fdb_tsl_iter_by_time` in one sector; `stop` when an entry was out of range. */
    method QuerySector(info: TsInfo, from: int, to: int) returns (part: seq<Tsl>, stop: bool)
      requires Core() && info.sec < |secs| && Spans(info, secs[info.sec]) && Increasing(secs[info.sec].entries)
      requires from <= to
      requires from <= LastTime(secs[info.sec].entries)
      ensures part == Between(Descs(secs, flash.secSize, info.sec), from, to)
      ensures stop ==> LastTime(secs[info.sec].entries) > to
    {
      hide Core, DataLen, Between, FirstFrom, Desc;
      ghost var es, all := secs[info.sec].entries, Descs(secs, flash.secSize, info.sec);
      var off := SearchStart(info.sec, TS_HDR, info.endIdx, from);
      ghost var i := TheFirst(es, from, off);
      BeforeFirst(secs, flash.secSize, info.sec, i, from);
      BetweenNone(all[..i], from, to);
      part, stop := [], false;
      while true
        invariant 0 <= i < |es| && off == IdxOff(i) && part == Between(all[..i], from, to) && !stop
        invariant forall j :: i <= j < |es| ==> es[j].time >= from
        decreases |es| - i
      {
        var t := ReadTsl(info.sec, off, i);
        DescTime(secs, flash.secSize, info.sec, i);
        BetweenUpTo(all, i, from, to);
        if t.status != 0 {
          if from <= t.time <= to {
            part := part + [t];
          } else {
            LaterPast(secs, flash.secSize, info.sec, i, to);
            BetweenRest(all, i, from, to);
            return part, true;
          }
        }
        i := i + 1;
        if off + TS_IDX <= info.endIdx {
          off := off + TS_IDX;
        } else {
          break;
        }
      }
      assert all[..|es|] == all;
    }

    /** One sector of the query: entered once the first entry that is late enough was found. */
    method QueryTurn(sec: nat, prior: TsInfo, found: bool, got: seq<Tsl>, from: int, to: int, ghost k: nat)
      returns (info: TsInfo, out: seq<Tsl>, late: bool, stop: bool)
      requires Valid() && from <= to && oldest < |secs| && k < |secs| && sec == SectorAfter(oldest, |secs|, k)
      requires QueryAt(secs, flash.secSize, oldest, k, got, found, from, to)
      ensures if stop then out == Between(ListFrom(secs, flash.secSize, oldest, 0), from, to)
              else QueryAt(secs, flash.secSize, oldest, k + 1, out, late, from, to)
    {
      hide TsFaithful, DataLen, InRing, InfoIs, CurOk, SectorAfter, Descs, ListFrom, Spans, Between, Increasing,
           LogFrom, Logged, QueryAt;
      info := SectorToIterate(sec, prior);
      out, late, stop := got, found, false;
      if info.status == Using || info.status == Full {
        SpansParts(info, secs[sec]);
        if found || (sec == oldest && from <= info.startTime) || from <= info.endTime {
          QueryEnters(secs, flash.secSize, oldest, k, sec, out, found, from, to);
          late := true;
          var part;
          part, stop := QuerySector(info, from, to);
          QueryTook(secs, flash.secSize, oldest, k, sec, out, found, part, from, to);
          out := out + part;
        } else {
          QuerySkips(secs, flash.secSize, oldest, k, sec, out, from, to);
        }
      } else if info.status == Empty {
        NoneBehind(secs, flash.secSize, flash.mem);
        EmptyAhead(secs, oldest, cur.sec, k, history, lastTime);
        QueryStops(secs, flash.secSize, oldest, k, out, found, from, to);
        stop := true;
      }
    }

    /** `fdb_tsl_iter_by_time` forwards: exactly the entries of `fdb_tsl_iter` in the range of time. */
    method IterByTime(from: int, to: int) returns (out: seq<Tsl>)
      requires Valid() && from <= to
      ensures out == Between(ListFrom(secs, flash.secSize, oldest, 0), from, to)
      ensures exists i: nat, j: nat ::
                && Stretch(ListFrom(secs, flash.secSize, oldest, 0), from, to, i, j)
                && out == ListFrom(secs, flash.secSize, oldest, 0)[i..j]
    {
      hide TsFaithful, InRing, InfoIs, CurOk, SectorAfter, ListFrom, Between, Logged, QueryAt, Stretch;
      DeliversHistory();
      QueryIsStretch(ListFrom(secs, flash.secSize, oldest, 0), from, to);
      InRingBounds(secs, oldest, cur.sec);
      LogInOrder(secs, oldest, history, dropped, lastTime);
      QueryBegins(secs, flash.secSize, oldest, from, to);
      var sec, k, info, found, stop := oldest, 0, NO_INFO, false, false;
      out := [];
      AfterShift(oldest, |secs|, 0);
      while k < flash.secNum
        invariant k <= flash.secNum && (k < flash.secNum ==> sec == SectorAfter(oldest, |secs|, k))
        invariant QueryAt(secs, flash.secSize, oldest, k, out, found, from, to)
      {
        info, out, found, stop := QueryTurn(sec, info, found, out, from, to, k);
        if stop {
          return;
        }
        k := k + 1;
        if k < flash.secNum {
          NextAfter(oldest, |secs|, k);
          sec := NextSector(flash.secNum, sec);
        }
      }
      QueryStops(secs, flash.secSize, oldest, k, out, found, from, to);
    }

    /**
      Rollover: what the iterators deliver is the end of the history of successful appends, in order,
      with increasing times, each description leading to the bytes that were appended.
    */
    lemma DeliversHistory()
      requires Valid()
      ensures oldest < |secs| && dropped <= |history|
      ensures var list := ListFrom(secs, flash.secSize, oldest, 0);
              && |list| == |history| - dropped
              && (forall j ::
                    0 <= j < |list| ==>
                      Describes(secs, flash.secSize, list[j], history[dropped + j]) &&
                      list[j].time == history[dropped + j].time)
              && (forall i, j :: 0 <= i < j < |list| ==> list[i].time < list[j].time)
    {
      hide TsFaithful, InRing, CurOk, InfoIs, ListFrom, LogFrom, Describes;
      ListMatches(secs, flash.secSize, oldest, 0);
      ListTimes(secs, flash.secSize, oldest, 0);
      forall j | 0 <= j < |history| - dropped ensures LogFrom(secs, oldest, 0)[j] == history[dropped + j] {}
    }

    // ----- cleaning and start-up -----

    /** `tsl_format_all`: whatever the flash held, an empty store. */
    method Clean()
      requires Geometry()
      modifies this`secs, this`cur, this`oldest, this`lastTime, this`history, this`dropped, flash
      ensures Valid() && history == [] && dropped == 0 && oldest == 0 && cur.sec == 0 && lastTime == 0
      ensures secs == seq(flash.secNum, _ => EMPTY_TS)
    {
      hide TsShape, TsBytes, InRing, CurOk, Logged, Cleaned;
      var i := 0;
      while i < flash.secNum
        invariant Geometry() && i <= flash.secNum
        invariant forall j :: 0 <= j < i ==> Cleaned(flash.mem, flash.secSize, j)
      {
        ghost var m := flash.mem;
        Format(i);
        CleanedMore(m, flash.mem, flash.secSize, i);
        i := i + 1;
      }
      secs := seq(flash.secNum, _ => EMPTY_TS);
      CleanedAll(flash.mem, secs, flash.secSize);
      oldest, lastTime, history, dropped := 0, 0, [], 0;
      CleanRing(secs);
      var ok;
      ok, cur := ReadSectorInfo(0, cur, false);
    }

    /**
      `fdb_tsdb_init` on a store between appends whose current sector is `c`: sectors are read in
      order of address, and the cursors come out as they were: `was` describes the current sector
      as the running store did.
    */
    method Init(ghost o: nat, ghost c: nat, ghost t: int, ghost was: TsInfo)
      requires c < |secs| && was.sec == c && InfoIs(was, secs[c], flash.secSize)
      requires Core() && InRing(secs, o, c) && CurOk(secs, o, c, history, t) && Logged(secs, o, history, dropped, t)
      requires secs[c].status != Full && (history == [] ==> lastTime == 0)
      modifies this`cur, this`oldest, this`lastTime, this`rollover
      ensures Valid() && oldest == o && cur.sec == c && lastTime == t && rollover
      ensures secs[c].status == Using ==> cur == was
    {
      hide TsFaithful, DataLen, InRing, CurOk, Logged, InfoIs;
      InRingBounds(secs, o, c);
      rollover := true;
      var emptyNum, emptyAddr := ScanHeaders(o, c, t);
      var latest := if emptyNum > 0 then emptyAddr else cur.sec;
      oldest := if latest + 1 >= flash.secNum then 0 else latest + 1;
      NoEntries(secs, flash.secSize, c, flash.mem);
      var ok;
      ok, cur := ReadSectorInfo(cur.sec, cur, true);
      InfoParts(cur, was, secs[c], flash.secSize);
      CurTimes(secs, o, c, history, dropped, t);
      if cur.status == Using {
        lastTime := cur.endTime;
      } else if cur.status == Empty && oldest != cur.sec {
        assert false;
      }
    }

    /** `check_sec_hdr_cb` over all sectors: finds the current sector and the last empty one. */
    method ScanHeaders(ghost o: nat, ghost c: nat, ghost t: int) returns (emptyNum: nat, emptyAddr: nat)
      requires Core() && InRing(secs, o, c) && CurOk(secs, o, c, history, t) && c < |secs| && secs[c].status != Full
      modifies this`cur
      ensures Core() && cur.sec == c && emptyAddr < |secs|
      ensures NextSector(|secs|, if emptyNum > 0 then emptyAddr else c) == o
    {
      hide TsFaithful, DataLen, InRing, CurOk, Scanned, InfoIs;
      var seen := false;
      emptyNum, emptyAddr := 0, 0;
      var info := cur;
      var i: nat := 0;
      ScanBegins(secs, o, c, cur.sec);
      while i < flash.secNum
        invariant i <= flash.secNum && emptyAddr < |secs| && Scanned(secs, o, c, i, seen, cur.sec, emptyNum, emptyAddr)
      {
        var ok;
        ok, info := ReadSectorInfo(i, info, false);
        ok, info := ReadSectorInfo(i, info, true);
        ScanStep(secs, o, c, history, t, i, seen, cur.sec, emptyNum, emptyAddr);
        if info.status == Using {
          if !seen {
            seen, cur := true, info;
          } else {
            assert false;
          }
        } else if info.status == Empty {
          emptyNum, emptyAddr := emptyNum + 1, i;
          if emptyNum == 1 && !seen {
            seen, cur := true, info;
          }
        }
        i := i + 1;
      }
      ScanDone(secs, o, c, history, t, seen, cur.sec, emptyNum, emptyAddr);
    }

    // ----- capacity -----

    /** How many entries of length `len` the store can hold. */
    function CountOf(len: nat): (n: nat)
      requires len + TS_IDX + TS_HDR <= flash.secSize
      ensures n == flash.secNum * ((flash.secSize - 32) / (16 + len))
      reads this, flash
    {
      flash.secNum * PerSector(flash.secSize, len)
    }

    /** `fdb_tsl_max_blob_count` */
    function MaxBlobCount(): (n: nat)
      requires maxLen + TS_IDX + TS_HDR <= flash.secSize
      ensures n == flash.secNum * ((flash.secSize - 32) / (16 + maxLen))
      reads this, flash
    {
      CountOf(maxLen)
    }

    /** `count` entries of length `len` are stored. */
    ghost predicate FilledBy(count: nat, len: nat)
      reads this, flash
    {
      Valid() && oldest == 0 && !rollover && len <= maxLen &&
      Fills(secs[cur.sec], cur.sec, flash.secNum, PerSector(flash.secSize, len), len, count)
    }

    /** The store refuses an entry of this length exactly when it is filled, and never overwrites. */
    lemma FillFacts(count: nat, len: nat)
      requires FilledBy(count, len)
      ensures oldest < |secs| == flash.secNum && cur.sec < |secs| && len + TS_IDX + TS_HDR <= flash.secSize
      ensures lastTime == LastTime(history)
      ensures count <= CountOf(len) && (Refuses(len) <==> count == CountOf(len))
      ensures Overwrites(len) ==> Refuses(len)
      ensures count < CountOf(len) ==> secs[cur.sec].status != Full
      ensures var s, per := secs[cur.sec], PerSector(flash.secSize, len);
              && s.status in {Using, Empty, Full} && (s.status == Empty ==> s.entries == [])
              && (Closing(len) <==> s.status == Using && |s.entries| == per)
              && Fills(s, cur.sec, |secs|, per, len, count) && oldest == 0 && !rollover
    {
      hide TsFaithful, DataLen, InRing, CurOk, Logged, PerSector, Fills, InfoIs;
      InRingBounds(secs, oldest, cur.sec);
      CurStatus(secs, oldest, cur.sec, history, lastTime);
      LoggedTime(secs, oldest, history, dropped, lastTime);
      FillRoom(cur, secs[cur.sec], flash.secSize, cur.sec, flash.secNum, len, count);
    }

    lemma FilledNow(count: nat, len: nat)
      requires Valid() && oldest == 0 && !rollover && cur.sec < |secs|
      requires len <= maxLen && len + TS_IDX + TS_HDR <= flash.secSize
      requires Fills(secs[cur.sec], cur.sec, |secs|, PerSector(flash.secSize, len), len, count)
      ensures FilledBy(count, len) && lastTime == LastTime(history)
    {
      hide TsFaithful, DataLen, InRing, CurOk, Logged, PerSector, Fills, InfoIs;
      LoggedTime(secs, oldest, history, dropped, lastTime);
    }

    /** One append of this length: accepted exactly until the store is filled. */
    method FillOne(blob: seq<byte>, time: int, len: nat, ghost count: nat) returns (err: TsError)
      requires FilledBy(count, len) && |blob| == len <= maxLen && lastTime < time < TIME_LIMIT
      modifies this`secs, this`cur, this`oldest, this`dropped, this`history, this`lastTime, flash
      ensures err == if count < CountOf(len) then Ok else SavedFull
      ensures err == Ok ==> FilledBy(count + 1, len) && lastTime == time
      ensures err != Ok ==> FilledBy(count, len) && lastTime == old(lastTime)
    {
      hide TsFaithful, DataLen, InRing, CurOk, Logged, PerSector, Fills, WithEntry, InfoIs, Closing, Overwrites,
           Refuses, Valid, Ready;
      FillFacts(count, len);
      ghost var a, sec, closing, h := secs, cur.sec, Closing(len), history;
      err := Append(blob, time);
      InRingHolds();
      if err == Ok {
        FillNext(a, secs, sec, cur.sec, closing, Entry(time, blob), PerSector(flash.secSize, len), len, count);
        FilledNow(count + 1, len);
      } else {
        FillStays(a[sec], sec, flash.secNum, PerSector(flash.secSize, len), len, count);
        FilledNow(count, len);
      }
    }

    lemma InRingHolds()
      requires Valid()
      ensures oldest < |secs| && cur.sec < |secs| == flash.secNum
    {
      hide TsFaithful;
    }

    /**
      Exact capacity: on a cleaned store without rollover `CountOf(len)` entries of length `len` are
      accepted, and everything after that is refused.
    */
    method FillUp(blobs: seq<seq<byte>>, times: seq<int>, len: nat) returns (errs: seq<TsError>)
      requires Valid() && history == [] && oldest == 0 && cur.sec == 0 && secs[0].status == Empty && !rollover
      requires |times| == |blobs| && len <= maxLen
      requires forall i :: 0 <= i < |blobs| ==> |blobs[i]| == len && 0 < times[i] < TIME_LIMIT
      requires forall i, j :: 0 <= i < j < |times| ==> times[i] < times[j]
      modifies this`secs, this`cur, this`oldest, this`dropped, this`history, this`lastTime, flash
      ensures |errs| == |blobs| &&
              forall i :: 0 <= i < |errs| ==> errs[i] == if i < CountOf(len) then Ok else SavedFull
    {
      hide TsFaithful, InRing, CurOk, PerSector, FilledBy, Fills, Logged;
      FillStarts(len);
      errs := [];
      var i := 0;
      ghost var count: nat := 0;
      while i < |blobs|
        invariant i <= |blobs| == |times| && |errs| == i && len + TS_IDX + TS_HDR <= flash.secSize
        invariant count == (if i < CountOf(len) then i else CountOf(len)) && FilledBy(count, len)
        invariant lastTime <= (if i == 0 then 0 else times[i - 1])
        invariant forall j :: 0 <= j < i ==> errs[j] == if j < CountOf(len) then Ok else SavedFull
      {
        var err := FillOne(blobs[i], times[i], len, count);
        if err == Ok {
          count := count + 1;
        }
        errs, i := errs + [err], i + 1;
      }
    }

    lemma FillStarts(len: nat)
      requires Valid() && history == [] && oldest == 0 && cur.sec == 0 && secs[0].status == Empty && !rollover
      requires len <= maxLen
      ensures FilledBy(0, len) && lastTime == 0 && len + TS_IDX + TS_HDR <= flash.secSize
    {
      hide TsFaithful;
      NoEntries(secs, flash.secSize, 0, flash.mem);
    }
  }

  lemma HeaderSlices(b: seq<byte>)
    requires |b| >= TS_HDR
    ensures var h := b[0..0 + TS_HDR];
            && h[1..5] == b[1..5] && h[0..1] == b[0..1] && h[5..9] == b[5..9] && h[9..13] == b[9..13]
            && h[13..17] == b[13..17]
            && h[17..18] == b[17..18] && h[26..27] == b[26..27]
  {
  }

  lemma TimeFits(secs: Sectors, size: nat, sec: nat, i: nat)
    requires sec < |secs| && i < |secs[sec].entries| && TsShape(secs[sec], size, Base(size, sec))
    ensures 0 < secs[sec].entries[i].time < TIME_LIMIT && AsTime(secs[sec].entries[i].time) == secs[sec].entries[i].time
    ensures DataOff(secs[sec].entries, size, i) >= 0
  {
    DataInside(secs[sec], size, Base(size, sec), i);
  }

  lemma SlotInside(s: TsSector, size: nat, base: nat)
    requires TsShape(s, size, base)
    ensures EmptyData(s.entries, size) <= size
  {
  }

  lemma SlotIsDesc(secs: Sectors, size: nat, sec: nat, i: nat)
    requires sec < |secs| && i < |secs[sec].entries| && DataOff(secs[sec].entries, size, i) >= 0
    ensures Desc(secs, size, sec, i)
                == Tsl(TSL_WRITE, secs[sec].entries[i].time, |secs[sec].entries[i].data|, Addr(sec, IdxOff(i)),
                                            Base(size, sec) + DataOff(secs[sec].entries, size, i))
  {
  }

  /** The sector information after `i` entries were traversed. */
  function Traversed(header: TsInfo, es: seq<Entry>, size: nat, i: nat): TsInfo
    requires i <= |es|
  {
    var data := size - DataLen(es[..i]);
    header.(emptyIdx := IdxOff(i), emptyData := data, remain := data - IdxOff(i),
            endTime := if i == 0 then header.endTime else es[i - 1].time, endIdx := if i == 0 then header.endIdx
                else IdxOff(i) - TS_IDX)
  }

  lemma HeaderInfo(h: TsInfo, s: TsSector, size: nat)
    requires h.checkOk && h.status == s.status && h.stat1 == 0 && h.emptyIdx == TS_HDR && h.emptyData == size
    requires h.remain == size - TS_HDR
    requires (s.status in {Using, Full} ==> h.startTime == s.start) && (s.status != Full ==> h.stat0 == 0)
    ensures h == Traversed(h, s.entries, size, 0) && (s.entries == [] || s.status == Full ==> InfoIs(h, s, size))
  {
    assert s.entries[..0] == [];
  }

  lemma TraversedInfo(h: TsInfo, s: TsSector, size: nat)
    requires h.checkOk && s.status == Using == h.status && h.stat0 == h.stat1 == 0 && h.startTime == s.start
    ensures var t := Traversed(h, s.entries, size, |s.entries|);
            InfoIs(t, s, size) && t.sec == h.sec && t.status == h.status && t.checkOk
  {
    assert s.entries[..|s.entries|] == s.entries;
  }

  lemma DescWritten(secs: Sectors, size: nat, sec: nat)
    requires sec < |secs|
    ensures forall i :: 0 <= i < |secs[sec].entries| ==> Desc(secs, size, sec, i).status == TSL_WRITE
  {
  }

  lemma EmptyTraversed(mem: Memory, secs: Sectors, size: nat, sec: nat, header: TsInfo)
    requires TsFaithful(mem, secs, size) && sec < |secs| && header == Traversed(header, secs[sec].entries, size, 0)
    requires TS_HDR < size
    ensures header.emptyIdx == IdxOff(0) && header.remain == header.emptyData - header.emptyIdx > 0
  {
  }

  lemma FullyTraversed(header: TsInfo, es: seq<Entry>, size: nat)
    ensures var t := Traversed(header, es, size, |es|); t.emptyData == EmptyData(es, size) && t.emptyIdx == EmptyIdx(es)
  {
    assert es[..|es|] == es;
  }

  /** One more entry: it always fits, and exactly only if it is the last. */
  lemma TraversedNext(mem: Memory, secs: Sectors, size: nat, sec: nat, header: TsInfo, i: nat)
    requires TsFaithful(mem, secs, size) && sec < |secs| && i < |secs[sec].entries|
    ensures var es := secs[sec].entries;
            var t, u, d := Traversed(header, es, size, i), Traversed(header, es, size, i + 1), Desc(secs, size, sec, i);
            && u == t.(endTime := d.time, endIdx := t.emptyIdx, emptyIdx := t.emptyIdx + TS_IDX,
                   emptyData := t.emptyData - d.logLen, remain := t.remain - (TS_IDX + d.logLen))
            && t.emptyIdx == IdxOff(i) && d.status != 0 && u.remain >= 0 && (u.remain == 0 ==> i + 1 == |es|)
  {
    hide TsBytes;
    assert SectorOk(mem, secs, size, sec);
    var es := secs[sec].entries;
    DataLenPrefix(es, i);
    DataInside(secs[sec], size, Base(size, sec), i);
    if i + 1 < |es| {
      DataLenPrefix(es, i + 1);
    }
  }

  lemma AppendFitsWord(s: TsSector, e: Entry, size: nat)
    requires AppendFits(s, e, size) && size < U32_LIMIT && EmptyData(s.entries, size) <= size
    ensures e.time < U32_LIMIT && |e.data| < U32_LIMIT
  {
  }

  lemma IdxBytesIs(e: Entry, addr: nat)
    requires e.time < U32_LIMIT && |e.data| < U32_LIMIT && addr < U32_LIMIT
    ensures IdxBytes(e, addr) == [StatusByte(TSL_WRITE)] + Ones(3) + (U32(e.time) + U32(|e.data|) + U32(addr))
  {
  }

  lemma EndWords(s: TsSector, size: nat, base: nat)
    requires TsShape(s, size, base) && s.entries != []
    ensures LastTime(s.entries) < U32_LIMIT && base + EmptyIdx(s.entries) - TS_IDX < U32_LIMIT
    ensures EmptyIdx(s.entries) >= TS_IDX
  {
  }

  lemma BaseFits(size: nat, num: nat, sec: nat)
    requires sec < num && num * size < U32_LIMIT
    ensures Base(size, sec) + size < U32_LIMIT
  {
    assert (sec + 1) * size <= num * size by {
      MoreTimes(size, sec + 1, num);
    }
  }

  lemma MoreTimes(size: nat, a: nat, b: nat)
    requires a <= b
    ensures a * size <= b * size
  {
  }

  lemma StartIsFirst(secs: Sectors, size: nat, sec: nat, mem: Memory)
    requires TsFaithful(mem, secs, size) && sec < |secs|
    ensures secs[sec].entries != [] ==> secs[sec].start == secs[sec].entries[0].time
  {
    assert SectorOk(mem, secs, size, sec);
  }

  lemma NothingAhead(secs: Sectors, size: nat, oldest: nat, cur: nat)
    requires InRing(secs, oldest, cur) &&
             forall i :: 0 <= i < |secs| && secs[i].status == Empty ==> secs[i].entries == []
    ensures var l := ListFrom(secs, size, oldest, Dist(oldest, |secs|, cur) + 1); l == [] == Rev(l)
  {
    LaterEmpty(secs, oldest, Dist(oldest, |secs|, cur));
    ListOfEmpty(secs, size, oldest, Dist(oldest, |secs|, cur) + 1);
  }

  /** The state of the walk back after `k` sectors. */
  ghost predicate BackAt(secs: Sectors, size: nat, oldest: nat, cur: nat, k: nat, sec: nat, out: seq<Tsl>) {
    oldest < |secs| && cur < |secs| && sec < |secs| && var c := Dist(oldest, |secs|, cur);
      if k <= c then sec == SectorAfter(oldest, |secs|, c - k) && out == Rev(ListFrom(secs, size, oldest, c + 1 - k))
      else out == Rev(ListFrom(secs, size, oldest, 0)) && (k < |secs| ==> k == c + 1 && secs[sec].status == Empty)
  }

  lemma BackStarts(secs: Sectors, size: nat, oldest: nat, cur: nat)
    requires InRing(secs, oldest, cur) &&
             forall i :: 0 <= i < |secs| && secs[i].status == Empty ==> secs[i].entries == []
    ensures BackAt(secs, size, oldest, cur, 0, cur, [])
  {
    hide ListFrom, Rev;
    RingCur(secs, oldest, cur);
    NothingAhead(secs, size, oldest, cur);
  }

  /** What a sector adds to the list so far. */
  lemma BackAdds(secs: Sectors, size: nat, oldest: nat, k: nat, out: seq<Tsl>, part: seq<Tsl>)
    requires oldest < |secs| && k < |secs| && out == Rev(ListFrom(secs, size, oldest, k + 1))
    requires part == Rev(Descs(secs, size, SectorAfter(oldest, |secs|, k)))
    ensures out + part == Rev(ListFrom(secs, size, oldest, k))
  {
    hide ListFrom, Rev, Descs, SectorAfter;
    ListNext(secs, size, oldest, k);
    RevConcat(Descs(secs, size, SectorAfter(oldest, |secs|, k)), ListFrom(secs, size, oldest, k + 1));
  }

  lemma BackSector(secs: Sectors, size: nat, oldest: nat, cur: nat, k: nat, sec: nat, out: seq<Tsl>, part: seq<Tsl>)
    requires InRing(secs, oldest, cur) && BackAt(secs, size, oldest, cur, k, sec, out) && k < |secs|
    requires secs[sec].status != Empty && part == Rev(Descs(secs, size, sec))
    ensures BackAt(secs, size, oldest, cur, k + 1, PrevSector(|secs|, sec), out + part)
  {
    hide ListFrom, Rev, Descs, SectorAfter, Dist, PrevSector, RingShape;
    BackAdds(secs, size, oldest, Dist(oldest, |secs|, cur) - k, out, part);
    if k + 1 < |secs| {
      StepBack(secs, oldest, cur, k + 1, sec);
    }
  }

  /** The walk back meets an empty sector at once only in a store nothing was appended to. */
  lemma BackStops(secs: Sectors, size: nat, oldest: nat, cur: nat, k: nat, sec: nat, out: seq<Tsl>, history: seq<Entry>,
                  lastTime: int)
    requires InRing(secs, oldest, cur) && CurOk(secs, oldest, cur, history, lastTime)
    requires BackAt(secs, size, oldest, cur, k, sec, out) && k < |secs|
    requires secs[sec].status == Empty &&
             forall i :: 0 <= i < |secs| && secs[i].status == Empty ==> secs[i].entries == []
    ensures out == Rev(ListFrom(secs, size, oldest, 0))
  {
    hide ListFrom, Rev;
    var c := Dist(oldest, |secs|, cur);
    RingCur(secs, oldest, cur);
    if k <= c {
      assert k == 0 && c == 0;
      LaterEmpty(secs, oldest, c);
      ListOfEmpty(secs, size, oldest, 0);
      ListOfEmpty(secs, size, oldest, 1);
    }
  }

  lemma BackEnds(secs: Sectors, size: nat, oldest: nat, cur: nat, k: nat, sec: nat, out: seq<Tsl>)
    requires BackAt(secs, size, oldest, cur, k, sec, out) && k >= |secs|
    ensures out == Rev(ListFrom(secs, size, oldest, 0))
  {
  }

  /** One sector back: the one before in the ring, or, behind the oldest, an empty one. */
  lemma StepBack(secs: Sectors, oldest: nat, cur: nat, k: nat, sec: nat)
    requires InRing(secs, oldest, cur) && 0 < k < |secs| && sec < |secs|
    requires k - 1 <= Dist(oldest, |secs|, cur)
    requires sec == SectorAfter(oldest, |secs|, Dist(oldest, |secs|, cur) - (k - 1))
    ensures var c, p := Dist(oldest, |secs|, cur), PrevSector(|secs|, sec);
            if k <= c then p == SectorAfter(oldest, |secs|, c - k) else k == c + 1 && secs[p].status == Empty
  {
    var c, p := Dist(oldest, |secs|, cur), PrevSector(|secs|, sec);
    if k > c {
      assert sec == oldest == 0 && p == SectorAfter(oldest, |secs|, |secs| - 1);
    }
  }

  /** FDB_ALIGN */
  function AlignUp(size: int, align: int): int
    requires align > 0
  {
    (size + align - 1) - (size + align - 1) % align
  }

  /** The entry the halving looks at. */
  function Middle(lo: nat, hi: int): (m: nat)
    requires lo <= hi
    ensures lo <= m <= hi && IdxOff(m) == IdxOff(lo) + AlignUp((TS_HDR + TS_IDX * hi - IdxOff(lo)) / 2, TS_IDX)
  {
    assert (TS_HDR + TS_IDX * hi - IdxOff(lo)) / 2 == 8 * (hi - lo);
    lo + (hi - lo + 1) / 2
  }

  /** The entries outside `lo..hi` are on the right side of `from`. */
  ghost predicate Within(es: seq<Entry>, from: int, lo: nat, hi: int) {
    && (forall j :: 0 <= j < lo && j < |es| ==> es[j].time < from)
    && (forall j :: 0 <= j && hi < j < |es| ==> es[j].time > from)
  }

  lemma WithinAll(es: seq<Entry>, from: int)
    requires es != []
    ensures Within(es, from, 0, |es| - 1)
  {
  }

  lemma Narrows(es: seq<Entry>, from: int, lo: nat, hi: int, m: nat)
    requires Increasing(es) && lo <= m <= hi < |es| && Within(es, from, lo, hi)
    ensures es[m].time < from ==> Within(es, from, m + 1, hi)
    ensures es[m].time > from ==> Within(es, from, lo, m - 1)
    ensures es[m].time == from ==> FirstFrom(es, from, m)
  {
  }

  lemma Meets(es: seq<Entry>, from: int, lo: nat, hi: int)
    requires es != [] && from <= LastTime(es) && lo == hi + 1 <= |es| && Within(es, from, lo, hi)
    ensures FirstFrom(es, from, lo)
  {
  }

  lemma DescTime(secs: Sectors, size: nat, sec: nat, i: nat)
    requires sec < |secs| && i < |secs[sec].entries|
    ensures Desc(secs, size, sec, i).time == secs[sec].entries[i].time && Desc(secs, size, sec, i).status == TSL_WRITE
  {
  }

  lemma BeforeFirst(secs: Sectors, size: nat, sec: nat, i: nat, from: int)
    requires sec < |secs| && FirstFrom(secs[sec].entries, from, i)
    ensures i < |secs[sec].entries| && forall k :: 0 <= k < i ==> Descs(secs, size, sec)[k].time < from
    ensures forall k :: i <= k < |secs[sec].entries| ==> secs[sec].entries[k].time >= from
  {
  }

  lemma LaterPast(secs: Sectors, size: nat, sec: nat, i: nat, to: int)
    requires sec < |secs| && Increasing(secs[sec].entries) && i < |secs[sec].entries| && secs[sec].entries[i].time > to
    ensures forall k :: i <= k < |secs[sec].entries| ==> Descs(secs, size, sec)[k].time > to
    ensures LastTime(secs[sec].entries) > to
  {
  }

  lemma SpansParts(info: TsInfo, s: TsSector)
    requires Spans(info, s)
    ensures s.entries != [] && info.startTime == s.entries[0].time && info.endTime == LastTime(s.entries)
  {
  }

  ghost predicate Cleaned(mem: Memory, size: nat, i: nat) {
    i < |mem| && TsShape(EMPTY_TS, size, Base(size, i)) && TsBytes(mem[i], EMPTY_TS, size, Base(size, i))
  }

  lemma CleanedMore(m: Memory, n: Memory, size: nat, i: nat)
    requires i < |m| == |n| && n == m[i := n[i]] && (forall j :: 0 <= j < i ==> Cleaned(m, size, j))
    requires TsShape(EMPTY_TS, size, Base(size, i)) && TsBytes(n[i], EMPTY_TS, size, Base(size, i))
    ensures forall j :: 0 <= j < i + 1 ==> Cleaned(n, size, j)
  {
    hide TsShape, TsBytes;
    forall j | 0 <= j < i + 1 ensures Cleaned(n, size, j) {
      if j < i {
        assert Cleaned(m, size, j);
      }
    }
  }

  lemma CleanedAll(mem: Memory, secs: Sectors, size: nat)
    requires |mem| == |secs| && forall i :: 0 <= i < |secs| ==> secs[i] == EMPTY_TS && Cleaned(mem, size, i)
    ensures TsFaithful(mem, secs, size)
  {
    hide TsShape, TsBytes;
    forall i | 0 <= i < |secs| ensures SectorOk(mem, secs, size, i) {
      assert Cleaned(mem, size, i);
    }
  }

  lemma CleanRing(secs: Sectors)
    requires |secs| >= 2 && forall i :: 0 <= i < |secs| ==> secs[i] == EMPTY_TS
    ensures InRing(secs, 0, 0) && CurOk(secs, 0, 0, [], 0) && Logged(secs, 0, [], 0, 0)
  {
    LogEmpty(secs, 0, 0);
  }

  /** What reading the first `i` sectors in order of address has found. */
  ghost predicate Scanned(secs: Sectors, o: nat, c: nat, i: nat, seen: bool, cur: nat, emptyNum: nat, emptyAddr: nat) {
    && c < |secs| && i <= |secs| && (seen <==> c < i) && (seen ==> cur == c)
    && (emptyNum > 0 <==> exists j :: 0 <= j < i && secs[j].status == Empty)
    && (emptyNum > 0 ==> emptyAddr == i - 1)
  }

  lemma ScanBegins(secs: Sectors, o: nat, c: nat, cur: nat)
    requires c < |secs|
    ensures Scanned(secs, o, c, 0, false, cur, 0, 0)
  {
  }

  /** By address, the sectors before the current one are closed and those behind it empty, or all others are closed. */
  lemma ByAddress(secs: Sectors, o: nat, c: nat, i: nat)
    requires InRing(secs, o, c) && i < |secs|
    ensures o == 0 ==> (i < c ==> secs[i].status == Full) && (i > c ==> secs[i].status == Empty)
    ensures o != 0 && i != c ==> secs[i].status == Full && Dist(o, |secs|, c) == |secs| - 1
  {
    RingCur(secs, o, i);
    SameDist(o, |secs|, i, c);
  }

  lemma ScanStep(secs: Sectors, o: nat, c: nat, history: seq<Entry>, t: int, i: nat, seen: bool, cur: nat,
                 emptyNum: nat, emptyAddr: nat)
    requires InRing(secs, o, c) && CurOk(secs, o, c, history, t) && secs[c].status != Full && i < |secs|
    requires Scanned(secs, o, c, i, seen, cur, emptyNum, emptyAddr)
    ensures secs[i].status == Using ==> i == c && !seen && Scanned(secs, o, c, i + 1, true, i, emptyNum, emptyAddr)
    ensures secs[i].status == Empty ==>
              if emptyNum == 0 && !seen then i == c && Scanned(secs, o, c, i + 1, true, i, 1, i)
                                        else seen && Scanned(secs, o, c, i + 1, true, cur, emptyNum + 1, i)
    ensures secs[i].status == Full ==> Scanned(secs, o, c, i + 1, seen, cur, emptyNum, emptyAddr)
    ensures secs[i].status in {Using, Empty, Full}
  {
    ByAddress(secs, o, c, i);
    if emptyNum > 0 {
      var j :| 0 <= j < i && secs[j].status == Empty;
      ByAddress(secs, o, c, j);
    }
    ScannedMore(secs, i);
  }

  lemma ScannedMore(secs: Sectors, i: nat)
    requires i < |secs|
    ensures (exists j :: 0 <= j < i + 1 && secs[j].status == Empty) <==>
              secs[i].status == Empty || exists j :: 0 <= j < i && secs[j].status == Empty
  {
  }

  /** The last empty sector, or else the current one, is followed by the oldest. */
  lemma ScanDone(secs: Sectors, o: nat, c: nat, history: seq<Entry>, t: int, seen: bool, cur: nat, emptyNum: nat,
                 emptyAddr: nat)
    requires InRing(secs, o, c) && CurOk(secs, o, c, history, t) && secs[c].status != Full && |secs| >= 2
    requires Scanned(secs, o, c, |secs|, seen, cur, emptyNum, emptyAddr)
    ensures cur == c && NextSector(|secs|, if emptyNum > 0 then emptyAddr else cur) == o
  {
    if emptyNum > 0 {
      var j :| 0 <= j < |secs| && secs[j].status == Empty;
      ByAddress(secs, o, c, j);
    } else {
      ByAddress(secs, o, c, |secs| - 1);
      assert secs[|secs| - 1].status != Empty;
    }
  }

  /** The sector in use determines everything the store keeps about it. */
  lemma InfoParts(info: TsInfo, was: TsInfo, s: TsSector, size: nat)
    requires InfoIs(info, s, size) && InfoIs(was, s, size) && info.sec == was.sec
    ensures s.status == Using && s.entries != [] ==> info == was && info.endTime == LastTime(s.entries)
  {
  }

  lemma CurTimes(secs: Sectors, o: nat, c: nat, history: seq<Entry>, dropped: nat, t: int)
    requires CurOk(secs, o, c, history, t) && Logged(secs, o, history, dropped, t)
    ensures secs[c].status == Using ==> secs[c].entries != [] && LastTime(secs[c].entries) == t
    ensures secs[c].status == Empty ==> history == [] && t == 0 && o == c == 0
  {
  }

  /** `count` entries of length `len` are stored, `per` in each closed sector, the others in sector `sec`. */
  ghost predicate Fills(s: TsSector, sec: nat, num: nat, per: nat, len: nat, count: nat) {
    && |s.entries| <= per && DataLen(s.entries) == len * |s.entries| && count == sec * per + |s.entries| && sec < num
    && (s.status == Empty ==> count == 0) && (s.status == Full ==> count == num * per)
  }

  /** The free space decides about the next entry exactly as the count does. */
  lemma FillRoom(info: TsInfo, s: TsSector, size: nat, sec: nat, num: nat, len: nat, count: nat)
    requires len + TS_IDX + TS_HDR <= size && InfoIs(info, s, size)
    requires Fills(s, sec, num, PerSector(size, len), len, count)
    requires s.status in {Using, Empty, Full} && (s.status == Empty ==> s.entries == [])
    ensures count <= num * PerSector(size, len)
    ensures s.status == Using ==> (info.remain < TS_IDX + len <==> |s.entries| == PerSector(size, len))
    ensures s.status == Full || (s.status == Using && |s.entries| == PerSector(size, len) && sec + 1 == num) <==>
              count == num * PerSector(size, len)
  {
    hide PerSector, DataLen;
    CountsRoom(size, len, |s.entries|);
    CountsSectors(sec, num, PerSector(size, len), |s.entries|);
  }

  lemma FillNext(a: Sectors, b: Sectors, sec: nat, cur: nat, closing: bool, e: Entry, per: nat, len: nat, count: nat)
    requires sec < |a| && cur < |a| && per >= 1 && Fills(a[sec], sec, |a|, per, len, count) && count < |a| * per
    requires |e.data| == len
    requires a[sec].status in {Using, Empty} && (closing <==> a[sec].status == Using && |a[sec].entries| == per)
    requires cur == (if closing then NextSector(|a|, sec) else sec)
    requires b == WithEntry(Ready(a, sec, closing, e.time), cur, e)
    requires a[sec].status == Empty ==> a[sec].entries == []
    ensures |b| == |a| && Fills(b[cur], cur, |b|, per, len, count + 1)
  {
    hide DataLen;
    CountsSectors(sec, |a|, per, |a[sec].entries|);
    OneEntry(e);
    DataLenMore(a[sec].entries, e);
    NextView(a, sec, cur, closing, e);
    assert len * (|a[sec].entries| + 1) == len * |a[sec].entries| + len;
  }

  lemma NextView(a: Sectors, sec: nat, cur: nat, closing: bool, e: Entry)
    requires sec < |a| && a[sec].status in {Using, Empty} && (a[sec].status == Empty ==> a[sec].entries == [])
    requires cur == (if closing then NextSector(|a|, sec) else sec)
    ensures var b := WithEntry(Ready(a, sec, closing, e.time), cur, e);
            |b| == |a| && b[cur].status == Using && b[cur].entries == if closing then [] + [e] else a[sec].entries + [e]
  {
  }

  lemma FillStays(s: TsSector, sec: nat, num: nat, per: nat, len: nat, count: nat)
    requires Fills(s, sec, num, per, len, count) && count >= num * per
    ensures Fills(s.(status := Full), sec, num, per, len, count)
  {
    CountsAtMost(sec, num, per, |s.entries|);
  }

  lemma CountsAtMost(sec: nat, num: nat, per: nat, k: nat)
    requires sec < num && k <= per
    ensures sec * per + k <= num * per
  {
    Times(sec + 1, num, per);
  }

  /** Entries of the greatest length a sector takes. */
  function PerSector(size: nat, len: nat): (n: nat)
    requires len + TS_IDX + TS_HDR <= size
    ensures n >= 1
  {
    AtLeastOne(size - TS_HDR, TS_IDX + len);
    (size - TS_HDR) / (TS_IDX + len)
  }

  lemma AtLeastOne(a: nat, w: nat)
    requires 0 < w <= a
    ensures a / w >= 1
  {
    Quotient(a, w);
  }

  lemma Quotient(a: nat, w: nat)
    requires w > 0
    ensures (a / w) * w <= a < (a / w + 1) * w
  {
  }

  lemma Times(a: int, b: int, w: nat)
    requires a <= b
    ensures a * w <= b * w
  {
  }

  /** With `k` entries in a sector another one fits exactly if `k` is less than the capacity. */
  lemma CountsRoom(size: nat, len: nat, k: nat)
    requires len + TS_IDX + TS_HDR <= size && k <= PerSector(size, len)
    ensures (size - len * k) - (TS_HDR + TS_IDX * k) < TS_IDX + len <==> k == PerSector(size, len)
  {
    var a, w, per := size - TS_HDR, TS_IDX + len, PerSector(size, len);
    Quotient(a, w);
    assert (size - len * k) - (TS_HDR + TS_IDX * k) == a - k * w;
    if k < per {
      Times(k + 1, per, w);
    }
  }

  /** The count is full exactly if the last sector is current and full. */
  lemma CountsSectors(sec: nat, num: nat, per: nat, k: nat)
    requires sec < num && k <= per && per >= 1
    ensures sec * per + k <= num * per && (sec * per + k == num * per <==> sec == num - 1 && k == per)
    ensures k == per ==> sec * per + k + 1 == (sec + 1) * per + 1
  {
    Times(sec + 1, num, per);
    if sec < num - 1 {
      Times(sec + 2, num, per);
    }
  }

  lemma CurStatus(secs: Sectors, oldest: nat, sec: nat, history: seq<Entry>, lastTime: int)
    requires CurOk(secs, oldest, sec, history, lastTime)
    ensures secs[sec].status in {Using, Empty, Full} && (secs[sec].status == Empty ==> secs[sec].entries == [])
  {
  }

  lemma LoggedTime(secs: Sectors, oldest: nat, history: seq<Entry>, dropped: nat, lastTime: int)
    requires Logged(secs, oldest, history, dropped, lastTime)
    ensures lastTime == LastTime(history)
  {
  }

  lemma OneEntry(e: Entry)
    ensures DataLen([] + [e]) == |e.data|
  {
    DataLenMore([], e);
  }

  lemma InRingBounds(secs: Sectors, oldest: nat, sec: nat)
    requires InRing(secs, oldest, sec)
    ensures oldest < |secs| && sec < |secs|
  {
  }

  lemma InRingAtEnd(secs: Sectors, oldest: nat, sec: nat)
    requires InRing(secs, oldest, sec) && sec == |secs| - 1
    ensures oldest == 0 && Dist(oldest, |secs|, sec) == |secs| - 1
  {
  }

  lemma LoggedBounds(secs: Sectors, oldest: nat, history: seq<Entry>, dropped: nat, lastTime: int)
    requires Logged(secs, oldest, history, dropped, lastTime)
    ensures lastTime >= 0
  {
    LastNonNegative(history);
  }

  lemma NoneBehind(secs: Sectors, size: nat, mem: Memory)
    requires TsFaithful(mem, secs, size)
    ensures forall i :: 0 <= i < |secs| && secs[i].status == Empty ==> secs[i].entries == []
  {
    forall i | 0 <= i < |secs| && secs[i].status == Empty ensures secs[i].entries == [] {
      NoEntries(secs, size, i, mem);
    }
  }

  lemma NoEntries(secs: Sectors, size: nat, sec: nat, mem: Memory)
    requires TsFaithful(mem, secs, size) && sec < |secs|
    ensures secs[sec].status == Empty ==> secs[sec].entries == []
    ensures secs[sec].entries == [] ==>
              EmptyIdx(secs[sec].entries) == TS_HDR && EmptyData(secs[sec].entries, size) == size
    ensures secs[sec].status != StoreUnused && (secs[sec].status == Full ==> secs[sec].entries != [])
  {
    assert SectorOk(mem, secs, size, sec);
  }
}
