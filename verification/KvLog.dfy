/**
  The record log on flash. `KvLog` owns the device and the sector cache; its ghost field `secs`
  is the view the rest of the store reasons about, and `trace` holds that view after every single
  flash write, so that a claim about `trace` is a claim about every point of power loss.
*/
module KvLog {
  import opened Bytes
  import opened Status
  import opened NorFlash
  import opened KvLayout
  import opened KvImage
  import opened KvWalk
  import opened KvView
  import Crc32

  class Log {
    const flash: Flash
    var cache: seq<Option<SecInfo>>
    ghost var secs: View
    ghost var trace: seq<View>

    /** Flash, view and trace agree; the cache is not mentioned. */
    ghost predicate Core()
      reads this, flash
    {
      && flash.Valid() && flash.secNum >= 2 && SECTOR_HDR <= flash.secSize < U32_LIMIT
      && |secs| == flash.secNum
      && Faithful(flash.mem, secs, flash.secSize)
      && |trace| == |flash.hist|
      && forall t {:trigger trace[t]} :: 0 <= t < |trace| ==>
           Faithful(flash.hist[t], trace[t], flash.secSize) && |trace[t]| == flash.secNum
    }

    /** What holds between operations. */
    ghost predicate Valid()
      reads this, flash
    {
      Core() && CacheOk(cache, secs, flash.secSize) && Settled(secs) && Exact(secs)
    }

    /** What users of a valid log need to know of its view. */
    lemma Facts()
      requires Valid()
      ensures |secs| == flash.secNum && flash.secNum >= 2 && SECTOR_HDR <= flash.secSize
      ensures Shaped(secs, flash.secSize) && Settled(secs) && Exact(secs)
    {
      hide BytesOf, Shaped, CacheOk, Settled, Exact;
    }

    lemma SizeFact()
      requires Valid()
      ensures flash.secSize < U32_LIMIT
    {
      hide Faithful, CacheOk, Settled, Exact;
    }

    /** Power-up: the device as it is found, an empty cache. */
    constructor (flash: Flash, ghost secs: View)
      requires flash.Valid() && flash.secNum >= 2 && SECTOR_HDR <= flash.secSize < U32_LIMIT
      requires |secs| == flash.secNum && Faithful(flash.mem, secs, flash.secSize) && flash.hist == []
      ensures Core() && this.flash == flash && this.secs == secs && trace == []
      ensures cache == seq(SECTOR_CACHE_SIZE, _ => None)
    {
      this.flash := flash;
      this.secs := secs;
      this.trace := [];
      this.cache := seq(SECTOR_CACHE_SIZE, _ => None);
    }

    // ----- one flash write each -----

    method PutKvStatus(sec: nat, off: nat, st: KvStatus, ghost i: nat)
      requires Core() && IsRec(secs, sec, i) && secs[sec].recs[i].off == off
      requires RecShape(WithStatus(secs[sec].recs[i], st)) && secs[sec].recs[i].status.Index() <= st.Index()
      requires st != Unused
      requires i == 0 || secs[sec].recs[i].written != 4
      modifies this`secs, this`trace, flash
      ensures Core()
      ensures secs == old(secs)[sec := SetRecStatus(old(secs)[sec], i, st)]
      ensures trace == old(trace) + [secs]
    {
      hide SectorBytes, StatusByte, RecShape, Chained, BareLast;
      ghost var m, s := flash.mem[sec], secs[sec];
      ChainedEnds(s.recs, i);
      EncodeOneByte(KV_STATUS_NUM, st.Index());
      SetRecStatusShape(s, flash.secSize, i, st);
      assert SectorBytes(m, s);
      SetRecStatusBytes(m, s, i, st);
      flash.WriteStatus(sec, off, KV_STATUS_NUM, st.Index());
      StepFaithful(old(flash.mem), secs, sec, flash.mem[sec], SetRecStatus(s, i, st), flash.secSize);
      secs := secs[sec := SetRecStatus(s, i, st)];
      trace := trace + [secs];
    }

    /** The store status of a sector; only EMPTY to USING ever happens. */
    method PutUsing(sec: nat)
      requires Core() && sec < |secs| && secs[sec].store == Empty
      requires SECTOR_HDR + KV_HDR + REMAIN_THRESHOLD < flash.secSize
      modifies this`secs, this`trace, flash
      ensures Core()
      ensures secs == old(secs)[sec := Opened(old(secs)[sec])]
      ensures trace == old(trace) + [secs]
    {
      hide SectorBytes, StatusByte, RecShape, Chained;
      ghost var m, s := flash.mem[sec], secs[sec];
      EncodeOneByte(SECTOR_STATUS_NUM, Using.Index());
      assert SectorBytes(m, s);
      OpenedBytes(m, s);
      flash.WriteStatus(sec, 0, SECTOR_STATUS_NUM, Using.Index());
      StepFaithful(old(flash.mem), secs, sec, flash.mem[sec], Opened(s), flash.secSize);
      secs := secs[sec := Opened(s)];
      trace := trace + [secs];
    }

    method PutDirt(sec: nat, dirt: Dirt)
      requires Core() && sec < |secs| && secs[sec].store == Using
      requires secs[sec].dirt.Index() <= dirt.Index() && dirt != DirtUnused
      modifies this`secs, this`trace, flash
      ensures Core()
      ensures secs == old(secs)[sec := old(secs)[sec].(dirt := dirt)]
      ensures trace == old(trace) + [secs]
    {
      hide SectorBytes, StatusByte, RecShape, Chained;
      ghost var m, s := flash.mem[sec], secs[sec];
      EncodeOneByte(SECTOR_STATUS_NUM, dirt.Index());
      assert SectorBytes(m, s);
      DirtWritten(m, s, dirt);
      flash.WriteStatus(sec, DIRTY_OFFSET, SECTOR_STATUS_NUM, dirt.Index());
      StepFaithful(old(flash.mem), secs, sec, flash.mem[sec], s.(dirt := dirt), flash.secSize);
      secs := secs[sec := s.(dirt := dirt)];
      trace := trace + [secs];
    }

    /** PRE_WRITE on the erased bytes at the end of a sector. */
    method PutPreWrite(sec: nat, off: nat)
      requires Core() && sec < |secs| && secs[sec].store == Using && NextSlot(secs[sec]) == off
      requires NoBare(secs[sec].recs)
      requires off + KV_HDR + REMAIN_THRESHOLD < flash.secSize
      modifies this`secs, this`trace, flash
      ensures Core()
      ensures secs == old(secs)[sec := Begun(old(secs)[sec])]
      ensures trace == old(trace) + [secs]
    {
      hide SectorBytes, StatusByte, RecShape, Chained;
      ghost var m, s := flash.mem[sec], secs[sec];
      EncodeOneByte(KV_STATUS_NUM, PreWrite.Index());
      assert SectorBytes(m, s);
      BegunBytes(m, s);
      flash.WriteStatus(sec, off, KV_STATUS_NUM, PreWrite.Index());
      StepFaithful(old(flash.mem), secs, sec, flash.mem[sec], Begun(s), flash.secSize);
      secs := secs[sec := Begun(s)];
      trace := trace + [secs];
    }

    /** The next stretch of the record being written, up to stage `n` of it. */
    method PutBytes(sec: nat, off: nat, data: seq<byte>, ghost n: Rec)
      requires Core() && sec < |secs| && secs[sec].store == Using && secs[sec].recs != []
      requires Continues(LastOf(secs[sec]), n) && n.End() + REMAIN_THRESHOLD < flash.secSize
      requires off == n.off + LastOf(secs[sec]).written && data == NextBytes(LastOf(secs[sec]), n)
      modifies this`secs, this`trace, flash
      ensures Core()
      ensures secs == old(secs)[sec := WithLast(old(secs)[sec], n)]
      ensures trace == old(trace) + [secs]
    {
      hide SectorBytes, RecShape, RecBytes, NextBytes;
      ghost var m, s := flash.mem[sec], secs[sec];
      ContinuesBounds(LastOf(s), n);
      assert SectorBytes(m, s);
      WithLastBytes(m, s, n);
      WithLastShape(s, flash.secSize, n);
      flash.Write(sec, off, data);
      StepFaithful(old(flash.mem), secs, sec, flash.mem[sec], WithLast(s, n), flash.secSize);
      secs := secs[sec := WithLast(s, n)];
      trace := trace + [secs];
    }

    method EraseSector(sec: nat)
      requires Core() && sec < |secs|
      modifies this`secs, this`trace, flash
      ensures Core()
      ensures secs == old(secs)[sec := ERASED_SECTOR] && flash.mem[sec] == Ones(flash.secSize)
      ensures trace == old(trace) + [secs]
    {
      hide SectorBytes, RecShape;
      ErasedBytes(flash.secSize);
      flash.Erase(sec);
      StepFaithful(old(flash.mem), secs, sec, flash.mem[sec], ERASED_SECTOR, flash.secSize);
      secs := secs[sec := ERASED_SECTOR];
      trace := trace + [secs];
    }

    method PutHeader(sec: nat)
      requires Core() && sec < |secs| && flash.mem[sec] == Ones(flash.secSize)
      modifies this`secs, this`trace, flash
      ensures Core()
      ensures secs == old(secs)[sec := EMPTY_SECTOR]
      ensures trace == old(trace) + [secs]
    {
      hide RecShape, SectorHeader;
      FormattedBytes(flash.secSize);
      flash.Write(sec, 0, SectorHeader(Empty, Clean));
      StepFaithful(old(flash.mem), secs, sec, flash.mem[sec], EMPTY_SECTOR, flash.secSize);
      secs := secs[sec := EMPTY_SECTOR];
      trace := trace + [secs];
    }

    // ----- reading -----

    /** The chained CRC of the record body, read 32 bytes at a time. */
    method ReadCrc(sec: nat, from: nat, size: nat, crc: bv32) returns (r: bv32)
      requires flash.Valid() && sec < flash.secNum && from + size <= flash.secSize
      ensures r == Crc32.Continue(crc, flash.mem[sec][from..from + size])
    {
      hide Crc32.Continue;
      r := crc;
      var len := 0;
      Crc32.ContinueNothing(crc);
      assert flash.mem[sec][from..from] == [];
      while len < size
        invariant 0 <= len <= size
        invariant r == Crc32.Continue(crc, flash.mem[sec][from..from + len])
      {
        var chunk := if len + 32 < size then 32 else size - len;
        var buf := flash.Read(sec, from + len, chunk);
        Crc32.ContinueSplit(crc, flash.mem[sec][from..from + len], buf);
        assert flash.mem[sec][from..from + len] + buf == flash.mem[sec][from..from + len + chunk];
        r := Crc32.CalcCrc32(r, buf);
        len := len + chunk;
      }
    }

    /** The part of `read_kv` behind the length check: CRC, then name and value position. */
    method ReadBody(sec: nat, off: nat, status: KvStatus, len: nat, h: seq<byte>, ghost r: Rec) returns (kv: KvInfo)
      requires flash.Valid() && sec < flash.secNum && Holds(flash.mem[sec], r) && r.off == off && r.written >= KV_HDR
      requires off + KV_HDR <= flash.secSize && h == flash.mem[sec][off..off + KV_HDR]
      requires status == r.status && len == r.Stated() && off + len <= flash.secSize && NoLuck(r)
      ensures Reports(kv, sec, r)
    {
      hide Image, StatusByte, RecShape, CrcHead, RecCrc, U32, Crc32.Continue, FromU32;
      ghost var b := flash.mem[sec];
      HeaderReads(b, r);
      CrcReads(b, r);
      CrcDecides(b, r);
      HoldsStorable(b, r);
      CrcHeadReads(r.key, r.value);
      SubSlice(b, off, KV_HDR, 12, 16);
      SubSlice(b, off, KV_HDR, 16, 20);
      SubSlice(b, off, KV_HDR, 20, 24);
      SubSlice(b, off, KV_HDR, 16, 24);
      var crc := Crc32.CalcCrc32(0, h[16..20]);
      crc := Crc32.CalcCrc32(crc, h[20..24]);
      crc := ReadCrc(sec, off + KV_HDR, len - KV_HDR, crc);
      if (crc as nat) != FromU32(h[12..16]) {
        kv := KvInfo(status, false, len, [], 0, Addr(sec, off), 0);
        ReportsBad(kv, sec, r);
      } else {
        assert h[16] == h[16..24][0] && h[20..24] == h[16..24][4..8];
        var nameLen := h[16] as nat;
        var name := flash.Read(sec, off + KV_HDR, nameLen);
        kv := KvInfo(status, true, len, name, FromU32(h[20..24]), Addr(sec, off), off + KV_HDR + nameLen);
        if r.Complete() {
          BodyReads(b, r);
        }
      }
    }

    /**
      `read_kv`. Reading a record without a usable length marks it with the error status; every
      other read leaves the flash alone.
    */
    method ReadKv(sec: nat, off: nat, ghost i: nat) returns (kv: KvInfo)
      requires Core() && IsRec(secs, sec, i) && secs[sec].recs[i].off == off && Visible(secs[sec].recs[i])
      requires i == 0 || secs[sec].recs[i].written != 4
      requires RecShape(secs[sec].recs[i]) && NoLuck(secs[sec].recs[i])
      modifies this`secs, this`trace, flash
      ensures Core() && secs == MarkRec(old(secs), sec, i)
      ensures trace == old(trace) + (if secs == old(secs) then [] else [secs])
      ensures Reports(kv, sec, secs[sec].recs[i])
    {
      hide SectorBytes, SectorShape, Image, StatusByte, RecShape, FromU32, Decode, Holds, MarkRec, Faithful, CrcGood;
      ghost var r := secs[sec].recs[i];
      RecInPlace(flash.mem, secs, flash.secSize, sec, i);
      MarkRecIs(secs, sec, i);
      LengthReads(flash.mem[sec], r, flash.secSize, flash.secNum);
      StatusReads(flash.mem[sec], r);
      var h := flash.Read(sec, off, KV_HDR);
      SubSlice(flash.mem[sec], off, KV_HDR, 0, 1);
      SubSlice(flash.mem[sec], off, KV_HDR, 8, 12);
      assert h[..1] == h[0..1];
      var st := GetStatus(h[..1], KV_STATUS_NUM);
      var len := FromU32(h[8..12]);
      if len == UNUSED_WORD || len > flash.secNum * flash.secSize || len < KV_HDR {
        kv := KvInfo(ErrHdr, false, KV_HDR, [], 0, Addr(sec, off), 0);
        if KvStatusOf(st) != ErrHdr {
          PutKvStatus(sec, off, ErrHdr, i);
        }
        ReportsBare(kv, sec, WithStatus(r, ErrHdr));
      } else {
        kv := ReadBody(sec, off, KvStatusOf(st), len, h, r);
      }
    }

    // ----- the sector cache -----

    /** `get_sector_from_cache`: the slot of the entry, or -1. */
    method FindCached(sec: nat) returns (k: int)
      requires |cache| == SECTOR_CACHE_SIZE
      ensures -1 <= k < |cache|
      ensures k >= 0 ==> cache[k].Some? && cache[k].value.sec == sec
      ensures k == -1 ==> !IsCached(cache, sec)
    {
      k := 0;
      while k < SECTOR_CACHE_SIZE
        invariant 0 <= k <= SECTOR_CACHE_SIZE
        invariant forall i :: 0 <= i < k && cache[i].Some? ==> cache[i].value.sec != sec
      {
        if cache[k].Some? && cache[k].value.sec == sec {
          return;
        }
        k := k + 1;
      }
      k := -1;
    }

    /** `update_sector_cache`: replace or drop the entry of this sector, else fill a free slot. */
    method UpdateSectorCache(info: SecInfo)
      requires |cache| == SECTOR_CACHE_SIZE
      modifies this`cache
      ensures CacheUpdated(old(cache), cache, info)
    {
      var empty, i := SECTOR_CACHE_SIZE, 0;
      while i < SECTOR_CACHE_SIZE
        invariant 0 <= i <= SECTOR_CACHE_SIZE && cache == old(cache)
        invariant empty == SECTOR_CACHE_SIZE || (0 <= empty < i && cache[empty].None?)
        invariant forall k :: 0 <= k < i && cache[k].Some? ==> cache[k].value.sec != info.sec
      {
        if cache[i].Some? && cache[i].value.sec == info.sec {
          cache := cache[i := if info.checkOk then Some(info) else None];
          return;
        } else if cache[i].None? {
          empty := i;
        }
        i := i + 1;
      }
      if info.checkOk && empty < SECTOR_CACHE_SIZE {
        cache := cache[empty := Some(info)];
      }
    }

    // ----- walking a sector -----

    /** The scan of `find_next_kv_addr`: windows of 32 bytes, 28 of them examined each time. */
    method ScanMagic(sec: nat, start: nat, end: nat) returns (r: Option<nat>)
      requires flash.Valid() && sec < flash.secNum && end <= flash.secSize
      ensures r.Some? ==> start <= r.value && r.value + 8 <= flash.secSize && MagicAt(flash.mem[sec], r.value + 4)
      ensures r.Some? ==> forall q :: start + 4 <= q < r.value + 4 ==> !MagicAt(flash.mem[sec], q)
      ensures r.None? ==> forall q :: start + 4 <= q && q + 32 < end ==> !MagicAt(flash.mem[sec], q)
    {
      hide MagicAt, FromU32;
      var at := start;
      while at < end && at + 32 < end
        invariant start <= at
        invariant forall q :: start + 4 <= q < at ==> !MagicAt(flash.mem[sec], q)
      {
        var buf := flash.Read(sec, at, 32);
        var i := 0;
        while i < 28 && at + i < end
          invariant 0 <= i <= 28
          invariant forall q :: start + 4 <= q < at + i ==> !MagicAt(flash.mem[sec], q)
        {
          var magic := FromU32(buf[i..i + 4]);
          MagicIsWord(flash.mem[sec], at + i);
          SubSlice(flash.mem[sec], at, 32, i, i + 4);
          if magic == KV_MAGIC && at + i >= start + 4 {
            MagicFits(flash.mem[sec], at + i);
            return Some(at + i - 4);
          }
          i := i + 1;
        }
        at := at + 28;
      }
      r := None;
    }

    /** `find_next_kv_addr`: nothing follows the free space known to the cache. */
    method FindNextKv(sec: nat, start: nat, end: nat) returns (r: Option<nat>)
      requires flash.Valid() && sec < flash.secNum && end <= flash.secSize && |cache| == SECTOR_CACHE_SIZE
      ensures r.Some? ==> start <= r.value && r.value + 8 <= flash.secSize && MagicAt(flash.mem[sec], r.value + 4)
      ensures r.Some? ==> forall q :: start + 4 <= q < r.value + 4 ==> !MagicAt(flash.mem[sec], q)
      ensures r.None? ==>
                KnownEmpty(cache, sec, start) || forall q :: start + 4 <= q && q + 32 < end ==>
                    !MagicAt(flash.mem[sec], q)
    {
      hide MagicAt;
      var k := FindCached(sec);
      if k >= 0 && cache[k].value.emptyKv == Some(start) {
        return None;
      }
      r := ScanMagic(sec, start, end);
    }

    /** `get_next_kv_addr` behind a record that was read: the next visible record. */
    method GetNextKv(store: Store, kv: KvInfo, ghost i: nat) returns (next: Option<nat>)
      requires Valid() && IsRec(secs, kv.start.sec, i) && Visible(secs[kv.start.sec].recs[i])
      requires Locates(kv, kv.start.sec, secs[kv.start.sec].recs[i]) && store == secs[kv.start.sec].store
      ensures var recs := secs[kv.start.sec].recs; var j := NextVisible(recs, i);
              next == if j < |recs| then Some(recs[j].off) else None
    {
      hide Locates, MagicAt, CrcGood, SectorBytes, Image, RecShape, Settled, Exact, Quiet, SectorSettled, Chained,
           NextVisible;
      if store == Empty {
        return None;
      }
      ghost var sec, s, b := kv.start.sec, secs[kv.start.sec], flash.mem[kv.start.sec];
      ghost var j := NextVisible(s.recs, i);
      NextRules(flash.mem, secs, flash.secSize, sec, i);
      CachedEndIsLast(cache, secs, flash.secSize, sec, i);
      ReportedStart(kv, sec, s.recs[i]);
      var addr := if kv.crcOk then kv.start.off + kv.len else kv.start.off + 1;
      var r := FindNextKv(kv.start.sec, addr, flash.secSize - SECTOR_HDR);
      if r.None? || r.value > flash.secSize || kv.len == 0 {
        return None;
      }
      next := r;
    }

    /** `ReadKv` between operations; the mark it may set changes nothing the invariant speaks of. */
    method ReadRecord(sec: nat, off: nat, ghost i: nat) returns (kv: KvInfo)
      requires Valid() && IsRec(secs, sec, i) && secs[sec].recs[i].off == off && Visible(secs[sec].recs[i])
      modifies this`secs, this`trace, flash
      ensures Valid() && secs == MarkRec(old(secs), sec, i)
      ensures trace == old(trace) + (if secs == old(secs) then [] else [secs])
      ensures Reports(kv, sec, secs[sec].recs[i])
    {
      hide BytesOf, Shaped, CacheOk, Settled, Exact, Reports, MarkRec, RecShape, NoLuck;
      SettledNoBare(secs, sec);
      SettledRec(secs, sec, i);
      MarkKeeps(cache, secs, flash.secSize, sec, i);
      kv := ReadKv(sec, off, i);
    }

    /** The traversal of `read_sector_info` over a sector in use. */
    method Traverse(sec: nat) returns (empty: nat, remain: nat)
      requires Valid() && sec < |secs| && secs[sec].store == Using
      modifies this`secs, this`trace, flash
      ensures Valid() && secs == MarkRec(old(secs), sec, 0)
      ensures trace == old(trace) + (if secs == old(secs) then [] else [secs])
      ensures empty == secs[sec].End() && remain == flash.secSize - empty && !JustOpened(secs[sec])
    {
      hide Faithful, CacheOk, Settled, Exact, Reports, MarkRec, Chained, NextVisible, VisibleLen, BareLast, RecShape,
           SectorShape, SectorBytes, Image, StatusByte, CrcGood, Locates;
      empty, remain := SECTOR_HDR, flash.secSize - SECTOR_HDR;
      var off := SECTOR_HDR;
      ghost var i: nat := 0;
      UsingStarts(flash.mem, secs, flash.secSize, sec);
      while true
        invariant Valid() && IsRec(secs, sec, i) && secs[sec].store == Using
        invariant secs[sec].recs[i].off == off && Visible(secs[sec].recs[i])
        invariant i == 0 ==> secs == old(secs) && trace == old(trace)
        invariant i > 0 ==>
                    secs == MarkRec(old(secs), sec, 0) &&
                    trace == old(trace) + (if secs == old(secs) then [] else [secs])
        invariant empty == SECTOR_HDR + VisibleLen(secs[sec].recs, i) && remain == flash.secSize - empty
        decreases |secs[sec].recs| - i
      {
        TraverseStep(secs, flash.mem, flash.secSize, sec, i);
        var kv := ReadRecord(sec, off, i);
        ReportedPartial(kv, sec, secs[sec].recs[i]);
        if !kv.crcOk && kv.status != PreWrite && kv.status != ErrHdr {
          assert false;
        }
        empty, remain := empty + kv.len, remain - kv.len;
        var next := GetNextKv(Using, kv, i);
        if next.None? {
          break;
        }
        i, off := NextVisible(secs[sec].recs, i), next.value;
      }
      var ff := flash.ContinueFf(sec, empty, flash.secSize);
      TraversedEnd(flash.mem, secs, flash.secSize, sec, empty, ff);
      if empty != ff {
        empty, remain := ff, flash.secSize - ff;
      }
    }

    /**
      `read_sector_info`. A header that fails the check is reported as such; otherwise store and
      dirty status, and on request the free space, from the cache where it knows them.
    */
    method ReadSectorInfo(sec: nat, traversal: bool) returns (info: SecInfo)
      requires Valid() && sec < |secs|
      modifies this`secs, this`trace, this`cache, flash
      ensures Valid()
      ensures secs == old(secs) || (traversal && IsRec(old(secs), sec, 0) && secs == MarkRec(old(secs), sec, 0))
      ensures trace == old(trace) + (if secs == old(secs) then [] else [secs])
      ensures info.sec == sec
      ensures secs[sec].store == StoreUnused ==> !info.checkOk && info.store == StoreUnused
      ensures secs[sec].store != StoreUnused ==> InfoOk(info, secs, flash.secSize) && (traversal ==> info.emptyKv.Some?)
    {
      hide BytesOf, Shaped, CacheOk, Settled, Exact, MarkRec, FromU32, Decode;
      CacheSize(cache, secs, flash.secSize);
      var k := FindCached(sec);
      if k >= 0 && (!traversal || cache[k].value.emptyKv.Some?) {
        CachedInfo(cache, secs, flash.secSize, k);
        return cache[k].value;
      }
      HeaderDecodes(flash.mem, secs, flash.secSize, sec);
      var h := flash.Read(sec, 0, SECTOR_HDR);
      SubSlice(flash.mem[sec], 0, SECTOR_HDR, 4, 8);
      SubSlice(flash.mem[sec], 0, SECTOR_HDR, 8, 12);
      SubSlice(flash.mem[sec], 0, SECTOR_HDR, 0, 1);
      SubSlice(flash.mem[sec], 0, SECTOR_HDR, 1, 2);
      var magic, combined := FromU32(h[4..8]), FromU32(h[8..12]);
      if magic != SECTOR_MAGIC || (combined != UNUSED_WORD && combined != 0) {
        return SecInfo(false, StoreUnused, DirtUnused, sec, 0, None);
      }
      var store := GetStatus(h[0..1], SECTOR_STATUS_NUM);
      var dirt := GetStatus(h[1..2], SECTOR_STATUS_NUM);
      if traversal {
        info := FreeSpace(sec, StoreOf(store), DirtOf(dirt));
        UpdateSectorCache(info);
        CacheTakes(old(cache), cache, secs, flash.secSize, info);
      } else {
        info := SecInfo(true, StoreOf(store), DirtOf(dirt), sec, 0, None);
        if k == -1 {
          UpdateSectorCache(info);
          CacheTakes(old(cache), cache, secs, flash.secSize, info);
        }
      }
    }

    /** Free space and first free byte of a sector with a good header. */
    method FreeSpace(sec: nat, store: Store, dirt: Dirt) returns (info: SecInfo)
      requires Valid() && sec < |secs| && store == secs[sec].store != StoreUnused && dirt == secs[sec].dirt
      modifies this`secs, this`trace, flash
      ensures Valid()
      ensures secs == old(secs) || (IsRec(old(secs), sec, 0) && secs == MarkRec(old(secs), sec, 0))
      ensures trace == old(trace) + (if secs == old(secs) then [] else [secs])
      ensures info.sec == sec && InfoOk(info, secs, flash.secSize) && info.emptyKv.Some?
    {
      hide BytesOf, CacheOk, Settled, Exact, MarkRec, Chained;
      var remain, empty := 0, SECTOR_HDR;
      if store == Empty {
        remain := flash.secSize - SECTOR_HDR;
      } else if store == Using {
        UsingStarts(flash.mem, secs, flash.secSize, sec);
        MarkHeaders(secs, sec, 0);
        empty, remain := Traverse(sec);
      }
      info := SecInfo(true, store, dirt, sec, remain, Some(empty));
    }

    // ----- changes -----

    /** `format_sector` */
    method FormatSector(sec: nat)
      requires Valid() && sec < |secs|
      modifies this`secs, this`trace, this`cache, flash
      ensures Valid() && secs == old(secs)[sec := EMPTY_SECTOR]
      ensures trace == old(trace) + [old(secs)[sec := ERASED_SECTOR], secs]
    {
      hide BytesOf, Shaped, CacheOk, Settled, Exact;
      CacheSize(cache, secs, flash.secSize);
      FormatKeeps(secs, sec);
      EraseSector(sec);
      PutHeader(sec);
      var info := SecInfo(false, StoreUnused, DirtUnused, sec, 0, None);
      UpdateSectorCache(info);
      CacheForgets(old(cache), cache, old(secs), flash.secSize, info, EMPTY_SECTOR);
      assert secs == old(secs)[sec := EMPTY_SECTOR];
    }

    /** `do_gc` marks the sector it is about to collect. */
    method SetGc(sec: nat)
      requires Valid() && sec < |secs| && secs[sec].store == Using && secs[sec].dirt in {Dirty, Gc}
      modifies this`secs, this`trace, flash
      ensures Valid() && secs == old(secs)[sec := old(secs)[sec].(dirt := Gc)]
      ensures trace == old(trace) + [secs]
    {
      hide BytesOf, Shaped, CacheOk, Settled, Exact;
      DirtKeeps(secs, sec, Gc);
      GcCached(cache, secs, flash.secSize, sec);
      PutDirt(sec, Gc);
    }

    /** The flash part of `del_kv`: the new record status, then the sector's dirty mark if it is clean. */
    method DeleteRecord(sec: nat, off: nat, st: KvStatus, ghost i: nat)
      requires Valid() && IsRec(secs, sec, i) && secs[sec].recs[i].off == off && secs[sec].recs[i].Complete()
      requires secs[sec].recs[i].status.Index() <= st.Index() && st in {PreDelete, Deleted}
      modifies this`secs, this`trace, this`cache, flash
      ensures Valid() && secs == DeletedView(old(secs), sec, i, st)
      ensures trace == old(trace) + [old(secs)[sec := SetRecStatus(old(secs)[sec], i, st)]]
                  + (if old(secs)[sec].dirt == Clean then [secs] else [])
    {
      hide BytesOf, Shaped, CacheOk, Settled, Exact, Decode;
      CacheSize(cache, secs, flash.secSize);
      HasRecords(secs, flash.secSize, sec, i);
      StatusKeeps(cache, secs, flash.secSize, sec, i, st);
      PutKvStatus(sec, off, st, i);
      HeaderDecodes(flash.mem, secs, flash.secSize, sec);
      SubSlice(flash.mem[sec], 0, SECTOR_HDR, 1, 2);
      var d := flash.ReadStatus(sec, DIRTY_OFFSET, SECTOR_STATUS_NUM);
      if DirtOf(d) == Clean {
        DirtKeeps(secs, sec, Dirty);
        ghost var a, clean := cache, secs;
        PutDirt(sec, Dirty);
        var k := FindCached(sec);
        if k >= 0 {
          cache := cache[k := Some(cache[k].value.(dirt := Dirty))];
        }
        DirtyFollows(a, cache, clean, flash.secSize, sec, k);
      }
    }

    /** Recovery marks a record that was cut short. */
    method MarkError(sec: nat, off: nat, ghost i: nat)
      requires Valid() && IsRec(secs, sec, i) && secs[sec].recs[i].off == off
      requires secs[sec].recs[i].written >= KV_HDR && secs[sec].recs[i].status == PreWrite
      modifies this`secs, this`trace, flash
      ensures Valid() && secs == old(secs)[sec := SetRecStatus(old(secs)[sec], i, ErrHdr)]
      ensures trace == old(trace) + [secs]
    {
      hide BytesOf, Shaped, CacheOk, Settled, Exact, RecShape;
      ErrorKeeps(cache, secs, flash.secSize, sec, i);
      PutKvStatus(sec, off, ErrHdr, i);
    }

    /** `fdb_kvdb_init` empties the sector cache. */
    method ResetCache()
      requires Valid()
      modifies this`cache
      ensures Valid()
    {
      hide Faithful, Settled, Exact, InfoOk;
      cache := seq(SECTOR_CACHE_SIZE, _ => None);
    }

    /**
      `update_sec_status` for a sector the allocator chose. More than the threshold stays free, so
      the branch that would close the sector is never taken.
    */
    method UpdateSecStatus(info: SecInfo, newLen: nat)
      requires Core() && |cache| == SECTOR_CACHE_SIZE && info.sec < |secs| && info.store == secs[info.sec].store
      requires info.store in {Empty, Using} && info.remain > newLen + REMAIN_THRESHOLD
      requires SECTOR_HDR + KV_HDR + REMAIN_THRESHOLD < flash.secSize
      modifies this`secs, this`trace, this`cache, flash
      ensures Core() && |cache| == SECTOR_CACHE_SIZE
      ensures info.store == Using ==> secs == old(secs) && trace == old(trace) && cache == old(cache)
      ensures info.store == Empty ==>
                secs == old(secs)[info.sec := Opened(old(secs)[info.sec])] && trace == old(trace) + [secs]
      ensures info.store == Empty ==> EntrySet(old(cache), cache, info.sec, Using)
    {
      hide BytesOf, Shaped;
      if info.store == Empty {
        PutUsing(info.sec);
        var k := FindCached(info.sec);
        if k >= 0 {
          cache := cache[k := Some(cache[k].value.(store := Using))];
        }
      } else if info.store == Using {
        if info.remain < REMAIN_THRESHOLD || info.remain - newLen < REMAIN_THRESHOLD {
          assert false;
        }
      }
    }

    /** `update_sector_empty_addr_cache` */
    method CacheEmptyAddr(sec: nat, end: nat)
      requires |cache| == SECTOR_CACHE_SIZE && end <= flash.secSize
      modifies this`cache
      ensures EmptySet(old(cache), cache, sec, end, flash.secSize)
    {
      var k := FindCached(sec);
      if k >= 0 {
        cache := cache[k := Some(cache[k].value.(emptyKv := Some(end), remain := flash.secSize - end))];
      }
    }

    /** Sector status and PRE_WRITE: the first two steps of adding a record. */
    method StartRecord(info: SecInfo, ghost key: seq<byte>, ghost value: seq<byte>, newLen: nat)
      requires Core() && |cache| == SECTOR_CACHE_SIZE && SlotOk(info, secs, flash.secSize)
      requires NoBare(secs[info.sec].recs)
      requires newLen == Size(key, value) && info.remain > newLen + REMAIN_THRESHOLD
      modifies this`secs, this`trace, this`cache, flash
      ensures Core() && |cache| == SECTOR_CACHE_SIZE
      ensures secs == old(secs)[info.sec := WithRec(old(secs)[info.sec], Bare(info.emptyKv.value, PreWrite))]
      ensures |trace| >= |old(trace)| && trace[..|old(trace)|] == old(trace)
      ensures Stages(trace, |old(trace)|, old(secs), info.sec, key, value)
      ensures CacheStarted(old(cache), cache, info.sec, old(secs)[info.sec].store)
    {
      hide BytesOf, Shaped, Stages, RecShape, Chained;
      ghost var was, s := secs, secs[info.sec];
      SlotUsable(info, secs, flash.secSize, newLen);
      BeginIsDraft(s);
      assert Stages(trace, |old(trace)|, was, info.sec, key, value) by { NoStages(trace, was, info.sec, key, value); }
      UpdateSecStatus(info, newLen);
      if s.store == Empty {
        DraftStage(old(trace), |old(trace)|, was, info.sec, key, value, Bare(s.End(), Unused));
      }
      ghost var mid := trace;
      PutPreWrite(info.sec, info.emptyKv.value);
      DraftStage(mid, |old(trace)|, was, info.sec, key, value, Bare(s.End(), PreWrite));
      assert secs == was[info.sec := WithRec(s, Bare(s.End(), PreWrite))];
    }

    /** One more stretch of the record: `data` takes it from stage `w` to stage `n`. */
    method ExtendRecord(sec: nat, off: nat, data: seq<byte>, ghost was: View, ghost from: nat,
                        ghost key: seq<byte>, ghost value: seq<byte>, ghost w: nat, ghost n: nat)
      requires Core() && InProgress(secs, was, sec, key, value, w)
      requires was[sec].End() + Size(key, value) + REMAIN_THRESHOLD < flash.secSize
      requires (w == 4 || KV_HDR <= w) && w <= n && KV_HDR <= n <= Size(key, value)
      requires off == was[sec].End() + w && data == RecBytes(key, value)[w..n]
      requires from <= |trace| && Stages(trace, from, was, sec, key, value)
      modifies this`secs, this`trace, flash
      ensures Core() && InProgress(secs, was, sec, key, value, n)
      ensures |trace| == |old(trace)| + 1 && trace[..from] == old(trace)[..from]
      ensures Stages(trace, from, was, sec, key, value)
    {
      hide BytesOf, RecBytes, Stages, Continues, NextBytes;
      ghost var s := was[sec];
      DraftGrows(s, key, value, w, n);
      PutBytes(sec, off, data, Draft(s.End(), key, value, n));
      DraftStage(old(trace), from, was, sec, key, value, Draft(s.End(), key, value, n));
      assert secs == was[sec := WithRec(s, Draft(s.End(), key, value, n))];
    }

    /** The status WRITE, which makes the record count. */
    method FinishRecord(sec: nat, off: nat, ghost was: View, ghost from: nat, ghost key: seq<byte>,
                        ghost value: seq<byte>)
      requires Core() && InProgress(secs, was, sec, key, value, Size(key, value)) && off == was[sec].End()
      requires from <= |trace| && Stages(trace, from, was, sec, key, value)
      modifies this`secs, this`trace, flash
      ensures Core() && secs == was[sec := Appended(was[sec], key, value)]
      ensures |trace| == |old(trace)| + 1 && trace[..from] == old(trace)[..from]
      ensures Stages(trace, from, was, sec, key, value)
    {
      hide BytesOf, Stages, RecShape;
      ghost var s := was[sec];
      DraftDone(s, key, value);
      PutKvStatus(sec, off, Write, |s.recs|);
      LastStage(old(trace), from, was, sec, key, value);
      assert secs == was[sec := Appended(s, key, value)];
    }

    /** The header of a new record, with its CRC chained over the same pieces the reader uses. */
    method BuildHeader(key: seq<byte>, value: seq<byte>) returns (h: seq<byte>)
      requires Storable(key, value)
      ensures h == HeaderBytes(key, value)
    {
      hide U32, Crc32.Continue;
      var nameLen: seq<byte> := [|key| as byte, ERASED, ERASED, ERASED];
      var valueLen := U32(|value|);
      var crc := Crc32.CalcCrc32(0, nameLen);
      crc := Crc32.CalcCrc32(crc, valueLen);
      crc := Crc32.CalcCrc32(crc, key);
      crc := Crc32.CalcCrc32(crc, value);
      Crc32.ContinueSplit(0, nameLen, valueLen);
      Crc32.ContinueSplit(0, nameLen + valueLen, key);
      Crc32.ContinueSplit(0, nameLen + valueLen + key, value);
      WordFits(crc);
      h := Ones(4) + U32(KV_MAGIC) + U32(Size(key, value)) + U32(crc as nat) + (nameLen + valueLen);
    }

    /** The writing part of `create_kv_blob`: header, name, value, then WRITE. */
    method CreateRecord(info: SecInfo, key: seq<byte>, value: seq<byte>)
      requires Valid() && Storable(key, value) && SlotOk(info, secs, flash.secSize)
      requires info.remain > Size(key, value) + REMAIN_THRESHOLD
      requires Even(secs[info.sec]) || FirmValue(key, value)
      modifies this`secs, this`trace, this`cache, flash
      ensures Valid() && secs == old(secs)[info.sec := Appended(old(secs)[info.sec], key, value)]
      ensures LagKept(old(secs), secs)
      ensures |trace| >= |old(trace)| && trace[..|old(trace)|] == old(trace)
      ensures Stages(trace, |old(trace)|, old(secs), info.sec, key, value)
    {
      hide BytesOf, Stages, CacheOk, Settled, Exact, Even, FirmValue, RecBytes, HeaderBytes, CacheStarted, EmptySet,
           Shaped;
      var sec, off, size := info.sec, info.emptyKv.value, Size(key, value);
      ghost var was, from := secs, |trace|;
      CacheSize(cache, secs, flash.secSize);
      SettledNoBare(secs, info.sec);
      AppendedKeeps(was, sec, key, value);
      RecPieces(key, value);
      var h := BuildHeader(key, value);
      StartRecord(info, key, value, size);
      ghost var started := cache;
      ExtendRecord(sec, off + 4, h[4..], was, from, key, value, 4, KV_HDR);
      if |key| > 0 {
        ExtendRecord(sec, off + KV_HDR, key, was, from, key, value, KV_HDR, KV_HDR + |key|);
      }
      CacheEmptyAddr(sec, off + size);
      if |value| > 0 {
        ExtendRecord(sec, off + KV_HDR + |key|, value, was, from, key, value, KV_HDR + |key|, size);
      }
      FinishRecord(sec, off, was, from, key, value);
      NotJustOpened(was[sec], key, value);
      CacheCompleted(old(cache), started, cache, was, flash.secSize, sec, Appended(was[sec], key, value));
    }

    /** The copying part of `move_kv`: everything behind the status byte, 32 bytes at a time. */
    method CopyRecord(info: SecInfo, from: Addr, len: nat, ghost i: nat)
      requires Valid() && SlotOk(info, secs, flash.secSize) && info.remain > len + REMAIN_THRESHOLD
      requires IsRec(secs, from.sec, i) && secs[from.sec].recs[i].Complete()
      requires secs[from.sec].recs[i].off == from.off && secs[from.sec].recs[i].Len() == len
      requires RecShape(secs[from.sec].recs[i])
      requires Even(secs[info.sec]) || Firm(secs[from.sec].recs[i])
      modifies this`secs, this`trace, this`cache, flash
      ensures Valid()
      ensures var r := old(secs)[from.sec].recs[i];
              secs == old(secs)[info.sec := Appended(old(secs)[info.sec], r.key, r.value)]
      ensures |trace| >= |old(trace)| && trace[..|old(trace)|] == old(trace)
      ensures var r := old(secs)[from.sec].recs[i]; Stages(trace, |old(trace)|, old(secs), info.sec, r.key, r.value)
    {
      hide BytesOf, Stages, CacheOk, Settled, Exact, Even, LagKept, FirmValue, Firm, RecBytes, CacheStarted, EmptySet,
           Faithful, InProgress, Shaped;
      var sec, off := info.sec, info.emptyKv.value;
      ghost var was, start, r := secs, |trace|, secs[from.sec].recs[i];
      CacheSize(cache, secs, flash.secSize);
      SettledNoBare(secs, info.sec);
      CompleteFirm(r);
      AppendedKeeps(was, sec, r.key, r.value);
      StartRecord(info, r.key, r.value, len);
      DraftBegins(was, sec, r.key, r.value);
      ghost var started := cache;
      var done := 0;
      while done < len - 4
        invariant 0 <= done <= len - 4 && (done == 0 || done >= KV_HDR - 4)
        invariant Core() && InProgress(secs, was, sec, r.key, r.value, 4 + done) && cache == started
        invariant |trace| >= start && trace[..start] == old(trace) && Stages(trace, start, was, sec, r.key, r.value)
      {
        var chunk := if done + 32 < len - 4 then 32 else len - 4 - done;
        SourceReads(flash.mem, secs, was, flash.secSize, sec, 4 + done, from.sec, i, 4 + done, 4 + done + chunk);
        var buf := flash.Read(from.sec, from.off + 4 + done, chunk);
        ExtendRecord(sec, off + 4 + done, buf, was, start, r.key, r.value, 4 + done, 4 + done + chunk);
        done := done + chunk;
      }
      FinishRecord(sec, off, was, start, r.key, r.value);
      CacheEmptyAddr(sec, off + len);
      NotJustOpened(was[sec], r.key, r.value);
      CacheCompleted(old(cache), started, cache, was, flash.secSize, sec, Appended(was[sec], r.key, r.value));
    }
  }
}
