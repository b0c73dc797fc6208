/**
  The key-value store: allocation, garbage collection, and set, delete and get on top of the
  record log, with the table that caches record addresses by a 16-bit CRC of the name.
*/
module Kvdb {
  import opened Bytes
  import opened NorFlash
  import opened KvLayout
  import opened KvImage
  import opened KvWalk
  import opened KvView
  import opened KvModel
  import opened KvRest
  import opened KvRoom
  import opened Ring
  import opened KvGc
  import opened KvSet
  import opened KvCrash
  import opened KvRestart
  import opened KvCollect
  import opened KvLaws
  import opened KvRecovery
  import opened KvSpare
  import opened NameCache
  import KvLog

  class Kvdb {
    const log: KvLog.Log
    var oldest: nat
    var gcRequest: bool
    var inRecovery: bool
    var lastIsCompleteDel: bool
    var kvCache: seq<Node>

    /** Power-up with empty tables; `start` is the sector walks begin at. */
    constructor (log: KvLog.Log, start: nat)
      requires log.Valid() && start < log.flash.secNum
      ensures this.log == log && Ready() && oldest == start && !gcRequest && !inRecovery && !lastIsCompleteDel
      ensures AllRight(kvCache, log.secs)
    {
      this.log := log;
      oldest := start;
      gcRequest, inRecovery, lastIsCompleteDel := false, false, false;
      kvCache := seq(CACHE_SIZE, _ => Node(0, 0, None));
      new;
      log.Facts();
    }

    ghost predicate Ready()
      reads this, log, log.flash
    {
      log.Valid() && oldest < |log.secs| == log.flash.secNum
    }

    function SecNum(): nat {
      log.flash.secNum
    }

    // ----- the table of record addresses -----

    /** `update_kv_cache` */
    method UpdateKvCache(name: Key, addr: Option<Addr>)
      requires |kvCache| == CACHE_SIZE
      modifies this`kvCache
      ensures kvCache == AfterUpdate(old(kvCache), NameCrc(name), addr)
      ensures Updated(old(kvCache), kvCache, NameCrc(name), addr)
    {
      hide NameCrc, Updated, CrcSlot, FreeSlot, LeastSlot, AgedUpTo;
      var crc := CalcNameCrc(name);
      var i, empty, least, leastActive := 0, CACHE_SIZE, CACHE_SIZE, MAX_ACTIVE;
      ghost var was := kvCache;
      AfterUpdateIs(was, crc, addr);
      while i < CACHE_SIZE
        invariant 0 <= i <= CACHE_SIZE && |kvCache| == CACHE_SIZE && CrcSlot(was, crc, i) == CACHE_SIZE
        invariant kvCache == if addr.Some? then AgedUpTo(was, i) else was
        invariant addr.Some? ==> empty == FreeSlot(was, i) && least == LeastSlot(AgedUpTo(was, CACHE_SIZE), i)
        invariant addr.Some? ==>
                    leastActive == if least < i then AgedUpTo(was, CACHE_SIZE)[least].active else MAX_ACTIVE
        invariant addr.None? ==> empty == CACHE_SIZE && least == CACHE_SIZE
      {
        SlotSteps(was, crc, i);
        if addr.Some? {
          if kvCache[i].crc == crc {
            kvCache := kvCache[i := kvCache[i].(addr := addr)];
            return;
          } else if kvCache[i].addr.None? && empty == CACHE_SIZE {
            empty := i;
          } else if kvCache[i].addr.Some? {
            if kvCache[i].active > 0 {
              kvCache := kvCache[i := kvCache[i].(active := kvCache[i].active - 1)];
            }
            if kvCache[i].active < leastActive {
              least, leastActive := i, kvCache[i].active;
            }
          }
        } else if kvCache[i].crc == crc {
          kvCache := kvCache[i := kvCache[i].(addr := None, active := 0)];
          return;
        }
        i := i + 1;
      }
      if empty < CACHE_SIZE {
        kvCache := kvCache[empty := Node(crc, CACHE_SIZE, addr)];
      } else if least < CACHE_SIZE {
        kvCache := kvCache[least := Node(crc, CACHE_SIZE, addr)];
      }
    }

    /** `get_kv_from_cache`: the live entry of the name's CRC whose stored bytes start with the name. */
    method KvFromCache(name: Key) returns (r: Option<Addr>)
      requires Ready() && AllRight(kvCache, log.secs)
      requires |name| <= NAME_MAX || forall i :: 0 <= i < |kvCache| && kvCache[i].addr.Some? ==>
                   kvCache[i].crc != NameCrc(name)
      modifies this`kvCache
      ensures Ready() && AllRight(kvCache, log.secs)
      ensures r.Some? ==> Answers(old(kvCache), log.flash.mem, name, r.value)
      ensures r.None? ==> (forall a :: !Answers(old(kvCache), log.flash.mem, name, a)) && kvCache == old(kvCache)
      ensures r.Some? ==> FirstUsed(old(kvCache), kvCache, log.flash.mem, name)
    {
      hide NameCrc, KvLog.Log.Valid, PointsAt;
      var crc := CalcNameCrc(name);
      var i := 0;
      while i < CACHE_SIZE
        invariant 0 <= i <= CACHE_SIZE && kvCache == old(kvCache)
        invariant forall k ::
                    0 <= k < i && kvCache[k].addr.Some? && kvCache[k].crc == crc ==>
                      !Hit(log.flash.mem, kvCache[k].addr.value, name)
      {
        if kvCache[i].addr.Some? && kvCache[i].crc == crc {
          var a := kvCache[i].addr.value;
          assert PointsAt(log.secs, a, kvCache[i].crc);
          CachedInside(a, crc);
          var saved := log.flash.Read(a.sec, a.off + KV_HDR, NAME_MAX);
          SubSlice(log.flash.mem[a.sec], a.off + KV_HDR, NAME_MAX, 0, |name|);
          if saved[0..|name|] == name {
            assert kvCache[i].addr == Some(a) && Hit(log.flash.mem, a, name);
            assert AnswersFirst(kvCache, log.flash.mem, name, i);
            var active := if kvCache[i].active >= MAX_ACTIVE - CACHE_SIZE then MAX_ACTIVE
                else kvCache[i].active + CACHE_SIZE;
            kvCache := kvCache[i := kvCache[i].(active := active)];
            return Some(a);
          }
        }
        i := i + 1;
      }
      r := None;
    }

    /** The 64 bytes read behind a cached header lie inside its sector. */
    lemma CachedInside(a: Addr, crc: bv16)
      requires Ready() && PointsAt(log.secs, a, crc)
      ensures log.flash.Valid() && a.sec < log.flash.secNum && a.off + KV_HDR + NAME_MAX <= log.flash.secSize
      ensures |log.flash.mem[a.sec]| == log.flash.secSize
    {
      hide NameCrc, BytesOf, RecShape, CacheOk, Settled, Exact;
      var j :| PointsAtRec(log.secs, a, crc, j);
      RecInPlace(log.flash.mem, log.secs, log.flash.secSize, a.sec, j);
    }

    // ----- searching -----

    /** One step of a walk through a sector: what reading record `j` will find and leave. */
    lemma WalkStep(sec: nat, j: nat)
      requires Ready() && IsRec(log.secs, sec, j) && Visible(log.secs[sec].recs[j])
      ensures var m := MarkRec(log.secs, sec, j);
              && (j > 0 ==> m == log.secs) && MarkedFrom(log.secs, m)
              && |m| == |log.secs| && IsRec(m, sec, j) && |m[sec].recs| == |log.secs[sec].recs|
              && m[sec].store == log.secs[sec].store
              && m[sec].recs[j].off == log.secs[sec].recs[j].off && Visible(m[sec].recs[j]) && RecShape(m[sec].recs[j])
    {
      hide RecShape, SectorBytes, VisibleLen, CacheOk, Exact, SectorSettled;
      TraverseStep(log.secs, log.flash.mem, log.flash.secSize, sec, j);
      if j == 0 {
        ReadMarks(log.secs, MarkRec(log.secs, sec, j), sec);
      } else {
        NothingMarked(log.secs, []);
      }
    }

    lemma WalkStart(sec: nat)
      requires Ready() && sec < |log.secs| && log.secs[sec].store == Using
      ensures IsRec(log.secs, sec, 0) && log.secs[sec].recs[0].off == SECTOR_HDR && Visible(log.secs[sec].recs[0])
    {
      hide SectorBytes, CacheOk, Exact, Settled;
      UsingStarts(log.flash.mem, log.secs, log.flash.secSize, sec);
    }

    /** The record loop of `kv_iterator` in one sector, with `find_kv_cb`. */
    method FindInSector(sec: nat, key: Key) returns (r: Option<KvInfo>, ghost j: nat)
      requires Ready() && sec < |log.secs| && log.secs[sec].store == Using
      modifies log`secs, log`trace, log.flash
      ensures Ready() && MarkedFrom(old(log.secs), log.secs)
      ensures log.trace == old(log.trace) + (if log.secs == old(log.secs) then [] else [log.secs])
      ensures r.Some? ==> At(log.secs, Pos(sec, j), Write, key) && Reports(r.value, sec, log.secs[sec].recs[j])
      ensures r.None? ==> forall i :: !At(log.secs, Pos(sec, i), Write, key)
    {
      hide KvLog.Log.Valid, MarkedFrom, MarkRec, Reports, At, NextVisible, RecShape;
      ghost var base, t0 := log.secs, log.trace;
      WalkStart(sec);
      NothingMarked(base, []);
      var off := SECTOR_HDR;
      j := 0;
      while true
        invariant Ready() && IsRec(log.secs, sec, j) && log.secs[sec].recs[j].off == off
        invariant Visible(log.secs[sec].recs[j])
        invariant log.secs[sec].store == Using && MarkedFrom(base, log.secs)
        invariant log.trace == t0 + (if log.secs == base then [] else [log.secs]) && (j == 0 ==> log.secs == base)
        invariant forall i :: 0 <= i < j ==> !At(log.secs, Pos(sec, i), Write, key)
        decreases |log.secs[sec].recs| - j
      {
        WalkStep(sec, j);
        ghost var v := log.secs;
        var kv := log.ReadRecord(sec, off, j);
        ReportedMatch(kv, log.secs, sec, j, key);
        if kv.crcOk && kv.status == Write && |kv.name| == |key| && kv.name == key {
          return Some(kv), j;
        }
        var next := log.GetNextKv(Using, kv, j);
        SkippedNotAt(log.secs, sec, j, key);
        if next.None? {
          break;
        }
        j, off := NextVisible(log.secs[sec].recs, j), next.value;
      }
      NoneBeyond(log.secs, sec, key);
      r := None;
    }

    /** `find_kv_no_cache` */
    method FindKvNoCache(key: Key) returns (r: Option<KvInfo>, ghost p: Pos)
      requires Ready()
      modifies log`secs, log`trace, log`cache, log.flash
      ensures Ready() && MarkedFrom(old(log.secs), log.secs)
      ensures Extends(old(log.trace), log.trace) && OnlyMarks(log.trace, |old(log.trace)|, old(log.secs))
      ensures r.Some? ==> At(log.secs, p, Write, key) && Reports(r.value, p.sec, RecAt(log.secs, p))
      ensures r.None? ==> forall q :: !At(log.secs, q, Write, key)
    {
      hide KvLog.Log.Valid, MarkedFrom, OnlyMarks, Reports, At, RecShape, Extends, Dist, JustOpened, SectorShape;
      var sec, k, num := oldest, 0, log.flash.secNum;
      ghost var base, n0 := log.secs, |log.trace|;
      p := Pos(0, 0);
      NothingMarked(base, log.trace);
      ExtendsSelf(log.trace);
      DistStart(oldest, num);
      while k < num
        invariant Ready() && k <= num && sec < num && (k < num ==> Dist(oldest, num, sec) == k) && |base| == num
        invariant Extends(old(log.trace), log.trace) && OnlyMarks(log.trace, n0, base) && MarkedFrom(base, log.secs)
        invariant forall q: Pos :: q.sec < num && Dist(oldest, num, q.sec) < k ==> !At(log.secs, q, Write, key)
      {
        DistNext(oldest, num, sec);
        ghost var v0, t0 := log.secs, log.trace;
        var info := log.ReadSectorInfo(sec, false);
        assert log.secs == v0 && log.trace == t0;
        log.Facts();
        InfoParts(info, v0, log.flash.secSize);
        if info.checkOk && (info.store == Using || info.store == Full) {
          StoreNotFull(v0, log.flash.secSize, sec);
          ghost var j;
          r, j := FindInSector(sec, key);
          OnlyMarksMore(t0, log.trace, n0, base, v0, log.secs);
          ExtendsMore(old(log.trace), t0, log.trace);
          if r.Some? {
            p := Pos(sec, j);
            AtParts(log.secs, p, Write, key);
            return;
          }
          MarkedFromAt(v0, log.secs, key);
        } else {
          NoRecordsNotAt(v0, log.flash.secSize, sec, key);
        }
        OnlyThisSector(log.secs, oldest, sec, key);
        sec, k := NextSector(num, sec), k + 1;
      }
      OutsideNotAt(log.secs, key);
      r := None;
    }

    /** A name longer than the buffer is not compared with any stored one. */
    ghost predicate Comparable(key: Key)
      reads this
    {
      |key| <= NAME_MAX || forall i :: 0 <= i < |kvCache| && kvCache[i].addr.Some? ==> kvCache[i].crc != NameCrc(key)
    }

    /**
      `find_kv`: by the table if it knows the name, else by a search whose result the table keeps. The
      answer is that of the full search exactly if the table does not know another record by that name.
    */
    method FindKv(key: Key, ghost gc: int) returns (r: Option<KvInfo>, ghost p: Pos)
      requires Ready() && Resting(log.secs, gc) && AllRight(kvCache, log.secs) && Comparable(key)
      modifies this`kvCache, log`secs, log`trace, log`cache, log.flash
      ensures Ready() && log.secs == old(log.secs) && AllRight(kvCache, log.secs)
      ensures Extends(old(log.trace), log.trace) && AllSame(log.trace, |old(log.trace)|, log.secs)
      ensures OnlyMarks(log.trace, |old(log.trace)|, log.secs)
      ensures !old(Misled(kvCache, log.flash.mem, log.secs, key)) && r.Some? ==>
                At(log.secs, p, Write, key) && Reports(r.value, p.sec, RecAt(log.secs, p))
      ensures !old(Misled(kvCache, log.flash.mem, log.secs, key)) && r.None? ==> Stored(log.secs, key) == None
      ensures old(Misled(kvCache, log.flash.mem, log.secs, key)) ==>
                r.Some? && RecAt(log.secs, p).key != key && At(log.secs, p, Write, RecAt(log.secs, p).key)
                && Reports(r.value, p.sec, RecAt(log.secs, p))
    {
      hide KvLog.Log.Valid, RestSector, SectorShape, Reports, At, PointsAt, Misled, Answers, LiesAt, Updated, Hit,
           NameCrc, Extends, AllSame, MarkedFrom, OnlyMarks;
      ghost var base, t0, n0, m0 := log.secs, log.trace, kvCache, log.flash.mem;
      log.Facts();
      ExtendsSelf(t0);
      AllSameNone(t0, base);
      NothingMarked(base, t0);
      p := Pos(0, 0);
      var a := KvFromCache(key);
      if a.Some? {
        ghost var j := AnsweredBy(n0, a.value, key);
        p := Pos(a.value.sec, j);
        var kv := log.ReadRecord(a.value.sec, a.value.off, j);
        assert log.trace == t0;
        return Some(kv), p;
      }
      NoAnswer(n0, m0, base, key);
      r, p := FindKvNoCache(key);
      RestingUnmarked(base, log.secs, gc, log.flash.secSize);
      RestingNoPreDelete(base, gc);
      OnlyMarksSame(log.trace, |t0|, base);
      if r.Some? {
        FoundPoints(r.value, p, key);
        AllRightIsExcept(kvCache, log.secs, NameCrc(key));
        ghost var was := kvCache;
        UpdateKvCache(key, Some(r.value.start));
        UpdateRights(was, kvCache, log.secs, NameCrc(key), Some(r.value.start));
      } else {
        LookupNone(log.secs, Write, key);
      }
    }

    lemma NoAnswer(t: seq<Node>, mem: Memory, secs: View, key: Key)
      requires forall a :: !Answers(t, mem, key, a)
      ensures !Misled(t, mem, secs, key)
    {
      hide Answers;
    }

    /** The record behind an answer of the table: that of the name unless the table is misled. */
    lemma AnsweredBy(t: seq<Node>, a: Addr, key: Key) returns (j: nat)
      requires Ready() && AllRight(t, log.secs) && Answers(t, log.flash.mem, key, a)
      ensures var p := Pos(a.sec, j);
              IsRec(log.secs, a.sec, j) && log.secs[a.sec].recs[j].off == a.off && Visible(log.secs[a.sec].recs[j])
              && MarkRec(log.secs, a.sec, j) == log.secs && At(log.secs, p, Write, RecAt(log.secs, p).key)
              && (Misled(t, log.flash.mem, log.secs, key) <==> RecAt(log.secs, p).key != key)
    {
      hide BytesOf, Shaped, CacheOk, Settled, Exact, NameCrc, Hit;
      log.Facts();
      var i :| 0 <= i < |t| && t[i].addr == Some(a) && t[i].crc == NameCrc(key) && Hit(log.flash.mem, a, key);
      assert PointsAt(log.secs, a, NameCrc(key));
      j :| PointsAtRec(log.secs, a, NameCrc(key), j);
      CompleteUnmarked(log.secs, a.sec, j);
      OneAnswer(t, a, key, j);
    }

    lemma OneAnswer(t: seq<Node>, a: Addr, key: Key, j: nat)
      requires Ready() && AllRight(t, log.secs) && Answers(t, log.flash.mem, key, a)
      requires PointsAtRec(log.secs, a, NameCrc(key), j)
      ensures Misled(t, log.flash.mem, log.secs, key) <==> RecAt(log.secs, Pos(a.sec, j)).key != key
    {
      hide BytesOf, CacheOk, Settled, Exact, NameCrc, Hit, PointsAt, SectorShape;
      log.Facts();
      forall b | Answers(t, log.flash.mem, key, b) ensures b == a {
        SoleEntry(t, log.flash.mem, key, a, b);
      }
      forall k: nat | IsRec(log.secs, a.sec, k) && log.secs[a.sec].recs[k].off == a.off ensures k == j {
        SameOffset(log.secs, log.flash.secSize, a.sec, j, k);
      }
      if RecAt(log.secs, Pos(a.sec, j)).key == key {
        assert At(log.secs, Pos(a.sec, j), Write, key);
        assert LiesAt(log.secs, a, key);
      }
    }

    lemma SoleEntry(t: seq<Node>, mem: Memory, key: Key, a: Addr, b: Addr)
      requires FirstOfCrc(t) && Answers(t, mem, key, a) && Answers(t, mem, key, b)
      ensures a == b
    {
      hide NameCrc, Hit;
    }

    lemma SameOffset(secs: View, size: nat, sec: nat, j: nat, k: nat)
      requires Shaped(secs, size) && IsRec(secs, sec, j) && IsRec(secs, sec, k)
      requires secs[sec].recs[j].off == secs[sec].recs[k].off
      ensures j == k
    {
      hide RecShape;
      assert SectorShape(secs[sec], size);
      ChainedEnds(secs[sec].recs, j);
      ChainedEnds(secs[sec].recs, k);
    }

    /** Names that do not clash with a stored one are found. */
    lemma Findable(key: Key)
      requires Ready() && Unique(log.secs, Write) && AllRight(kvCache, log.secs) && NoClash(log.secs, key)
      ensures Comparable(key) && !Misled(kvCache, log.flash.mem, log.secs, key)
    {
      hide BytesOf, CacheOk, Settled, Exact, NameCrc, NoClash, Misled, AllRight, SectorShape, Faithful;
      FaithfulShaped();
      if |key| > NAME_MAX {
        forall p, k | At(log.secs, p, Write, k) ensures |k| < NAME_MAX {
          ShapedShape(log.secs, log.flash.secSize, p.sec, p.idx);
        }
        LongNameNotCached(kvCache, log.secs, key);
      }
      NotMisled(kvCache, log.flash.mem, log.secs, log.flash.secSize, key);
    }

    lemma FaithfulShaped()
      requires Ready()
      ensures Faithful(log.flash.mem, log.secs, log.flash.secSize) && Shaped(log.secs, log.flash.secSize)
    {
      hide BytesOf, Shaped, CacheOk, Settled, Exact;
    }

    lemma FoundPoints(kv: KvInfo, p: Pos, key: Key)
      requires Ready() && At(log.secs, p, Write, key) && Reports(kv, p.sec, RecAt(log.secs, p))
      ensures PointsAt(log.secs, kv.start, NameCrc(key))
    {
      hide NameCrc;
      assert PointsAtRec(log.secs, kv.start, NameCrc(key), p.idx);
    }

    // ----- allocation -----

    /** `sector_statistics_cb` over all sectors */
    method CountSectors() returns (empty: nat, inUse: nat)
      requires Ready()
      modifies log`secs, log`trace, log`cache, log.flash
      ensures Ready() && log.secs == old(log.secs) && log.trace == old(log.trace)
      ensures empty == |WithStore(log.secs, Empty)| && inUse == |WithStore(log.secs, Using)|
    {
      hide KvLog.Log.Valid, SectorShape, DirtAgrees, JustOpened, Seen, WithStore, Dist;
      empty, inUse := 0, 0;
      var sec, k, num := oldest, 0, log.flash.secNum;
      ghost var base := log.secs;
      SeenEnds(base, oldest, Empty);
      SeenEnds(base, oldest, Using);
      DistStart(oldest, num);
      while k < num
        invariant Ready() && k <= num && sec < num && (k < num ==> Dist(oldest, num, sec) == k)
        invariant log.secs == base && log.trace == old(log.trace)
        invariant empty == |Seen(base, oldest, k, Empty)| && inUse == |Seen(base, oldest, k, Using)|
      {
        SeenStep(base, oldest, sec, Empty);
        SeenStep(base, oldest, sec, Using);
        DistNext(oldest, num, sec);
        var info := log.ReadSectorInfo(sec, false);
        if info.checkOk && info.store == Empty {
          empty := empty + 1;
        } else if info.checkOk && info.store == Using {
          inUse := inUse + 1;
        }
        sec, k := NextSector(num, sec), k + 1;
      }
    }

    /** `alloc_kv_cb` on one sector, if it has this store status. */
    method TryRoom(sec: nat, store: Store, need: nat) returns (r: Option<SecInfo>)
      requires Ready() && sec < |log.secs| && store in {Empty, Using} && (gcRequest || NoGc(log.secs))
      modifies log`secs, log`trace, log`cache, log.flash
      ensures Ready() && MarkedFrom(old(log.secs), log.secs)
      ensures log.trace == old(log.trace) + (if log.secs == old(log.secs) then [] else [log.secs])
      ensures r.Some? <==>
                old(log.secs)[sec].store == store && Fits(old(log.secs)[sec], log.flash.secSize, need, gcRequest)
      ensures r.Some? ==> RoomAt(r.value, log.secs, log.flash.secSize, sec, need)
    {
      hide KvLog.Log.Valid, SectorShape, JustOpened, MarkRec, MarkedFrom, Fits, NoGc;
      ghost var base := log.secs;
      var info := log.ReadSectorInfo(sec, false);
      assert log.secs == base && log.trace == old(log.trace);
      InfoParts(info, base, log.flash.secSize);
      NothingMarked(base, []);
      if info.store == store {
        info := log.ReadSectorInfo(sec, true);
        ReadMarks(base, log.secs, sec);
        MarkedFromSame(base, log.secs, sec);
        InfoParts(info, log.secs, log.flash.secSize);
        InfoFits(info, base, log.secs, log.flash.secSize, need, gcRequest);
        if info.checkOk && info.remain > need + REMAIN_THRESHOLD
           && (info.dirt == Clean || (info.dirt == Dirty && !gcRequest)) {
          return Some(info);
        }
      }
      r := None;
    }

    /** The search for room round the ring: the first sector of this store status that fits. */
    method FindRoom(store: Store, need: nat) returns (r: Option<SecInfo>)
      requires Ready() && store in {Empty, Using} && (gcRequest || NoGc(log.secs))
      modifies log`secs, log`trace, log`cache, log.flash
      ensures Ready() && MarkedFrom(old(log.secs), log.secs)
      ensures Extends(old(log.trace), log.trace) && OnlyMarks(log.trace, |old(log.trace)|, old(log.secs))
      ensures r.None? ==> NoFit(old(log.secs), log.flash.secSize, store, need, gcRequest)
      ensures r.Some? ==> RoomAt(r.value, log.secs, log.flash.secSize, r.value.sec, need)
      ensures r.Some? ==> FirstFit(old(log.secs), log.flash.secSize, oldest, store, need, gcRequest, r.value.sec)
    {
      hide KvLog.Log.Valid, SectorShape, MarkedFrom, OnlyMarks, Fits, NoGc, FirstFit, NoFit, Dist, InfoOk, NoneBefore;
      var sec, k, num, size := oldest, 0, log.flash.secNum, log.flash.secSize;
      ghost var base, n0 := log.secs, |log.trace|;
      NothingMarked(base, log.trace);
      DistStart(oldest, num);
      NoneAtStart(base, size, oldest, store, need, gcRequest);
      while k < num
        invariant Ready() && k <= num && sec < num && (k < num ==> Dist(oldest, num, sec) == k) && |base| == num
        invariant Extends(old(log.trace), log.trace) && OnlyMarks(log.trace, n0, base) && MarkedFrom(base, log.secs)
        invariant NoneBefore(base, size, oldest, store, need, gcRequest, k)
      {
        DistNext(oldest, num, sec);
        ghost var v0, t0 := log.secs, log.trace;
        MarkedFromNoGc(base, v0);
        MarkedFromFits(base, v0, sec, size, need, gcRequest);
        r := TryRoom(sec, store, need);
        OnlyMarksMore(t0, log.trace, n0, base, v0, log.secs);
        if r.Some? {
          FoundFirst(base, size, oldest, store, need, gcRequest, sec);
          return;
        }
        NotHere(base, size, oldest, store, need, gcRequest, sec);
        sec, k := NextSector(num, sec), k + 1;
      }
      NoneAtAll(base, size, oldest, store, need, gcRequest);
      r := None;
    }

    /**
      `alloc_kv`: a sector in use first; an empty one only while another empty one remains or
      during a collection; otherwise a collection is requested.
    */
    method AllocKv(need: nat) returns (r: Option<SecInfo>)
      requires Ready() && (gcRequest || NoGc(log.secs))
      modifies this`gcRequest, log`secs, log`trace, log`cache, log.flash
      ensures Ready() && MarkedFrom(old(log.secs), log.secs)
      ensures Extends(old(log.trace), log.trace) && OnlyMarks(log.trace, |old(log.trace)|, old(log.secs))
      ensures r.Some? ==> RoomAt(r.value, log.secs, log.flash.secSize, r.value.sec, need)
      ensures r.Some? ==> Chosen(old(log.secs), log.flash.secSize, oldest, need, old(gcRequest), r.value.sec)
      ensures r.None? <==> NoChoice(old(log.secs), log.flash.secSize, need, old(gcRequest))
      ensures r.Some? ==> GoesTo(old(log.secs), log.flash.secSize, oldest, need, old(gcRequest), r.value.sec)
      ensures r.None? <==>
                !AnyTakes(old(log.secs), log.flash.secSize, need, old(gcRequest), Using) &&
                (old(gcRequest) || |Empties(old(log.secs))| > 1 ==>
                   !AnyTakes(old(log.secs), log.flash.secSize, need, old(gcRequest), Empty))
      ensures gcRequest == (old(gcRequest) ||
                  (!AnyTakes(old(log.secs), log.flash.secSize, need, false, Using) && |Empties(old(log.secs))| == 1))
      ensures gcRequest == (old(gcRequest) ||
                  (NoFit(old(log.secs), log.flash.secSize, Using, need, false) && |Empties(old(log.secs))| == 1))
    {
      hide KvLog.Log.Valid, MarkedFrom, OnlyMarks, FirstFit, NoGc, WithStore, RoomAt, Fits, NoFit, AnyTakes, GoesTo;
      assert Extends(log.trace, log.trace) by { ExtendsSelf(log.trace); }
      ghost var base, n0, gc := log.secs, |log.trace|, gcRequest;
      var empty, inUse := CountSectors();
      NoneInUse(base, log.flash.secSize, need, gcRequest);
      NothingMarked(base, log.trace);
      r := None;
      if inUse > 0 {
        r := FindRoom(Using, need);
        FirstFitFits(base, log.flash.secSize, oldest, Using, need, gc, r);
      }
      if empty > 0 && r.None? {
        if empty > 1 || gcRequest {
          ghost var v1, t1 := log.secs, log.trace;
          MarkedFromNoGc(base, v1);
          r := FindRoom(Empty, need);
          FitSame(base, v1, log.flash.secSize, oldest, Empty, need, gc);
          MarkedFromTrans(base, v1, log.secs);
          OnlyMarksChain(t1, log.trace, n0, base, v1);
          ExtendsTrans(old(log.trace), t1, log.trace);
        } else {
          gcRequest := true;
        }
      }
      NoneEmpty(base, log.flash.secSize, need, gc);
      if r.Some? {
        ChosenOrNot(base, log.flash.secSize, oldest, need, gc, r.value.sec);
        ChosenGoes(base, log.flash.secSize, oldest, need, gc, r.value.sec);
      }
      NoChoiceTakesNone(base, log.flash.secSize, need, gc);
      FitsIsTakes(base, log.flash.secSize, need, false, Using);
    }

    // ----- deleting and moving -----

    /**
      `del_kv` on a record that was found: half-delete it, or delete it. The address is dropped
      from the table unless the record was half-deleted first, when the newer record owns the entry.
    */
    method DelKv(name: Key, kv: KvInfo, complete: bool, ghost p: Pos, ghost prior: KvStatus)
      requires Ready() && At(log.secs, p, prior, name) && kv.start == Addr(p.sec, RecAt(log.secs, p).off)
      requires prior in {Write, PreDelete} && RightExcept(kvCache, log.secs, NameCrc(name))
      modifies this`lastIsCompleteDel, this`kvCache, log`secs, log`trace, log`cache, log.flash
      ensures Ready() && IsRec(old(log.secs), p.sec, p.idx)
      ensures var st := if complete then Deleted else PreDelete;
              && log.secs == DeletedView(old(log.secs), p.sec, p.idx, st)
              && log.trace == old(log.trace) + [Restated(old(log.secs), p, st)]
                     + (if old(log.secs)[p.sec].dirt == Clean then [log.secs] else [])
      ensures lastIsCompleteDel == !complete
      ensures RightExcept(kvCache, log.secs, NameCrc(name))
      ensures complete && (!old(lastIsCompleteDel) || (prior == PreDelete && AllRight(old(kvCache), old(log.secs)))) ==>
                AllRight(kvCache, log.secs)
      ensures old(lastIsCompleteDel) ==> kvCache == old(kvCache)
    {
      hide KvLog.Log.Valid, At, NameCrc, Updated, PointsAt, Restated, DeletedView, RightExcept, AllRight;
      AtParts(log.secs, p, prior, name);
      ghost var st := if complete then Deleted else PreDelete;
      DeletedTable(kvCache, log.secs, p, prior, st, name);
      RestatedIs(log.secs, p, st);
      if !complete {
        log.DeleteRecord(kv.start.sec, kv.start.off, PreDelete, p.idx);
        lastIsCompleteDel := true;
      } else {
        log.DeleteRecord(kv.start.sec, kv.start.off, Deleted, p.idx);
        if !lastIsCompleteDel {
          RightSize(kvCache, log.secs, NameCrc(name));
          ghost var was := kvCache;
          UpdateKvCache(name, None);
          UpdateRights(was, kvCache, log.secs, NameCrc(name), None);
          AllRightIsExcept(kvCache, log.secs, NameCrc(name));
        }
        lastIsCompleteDel := false;
      }
    }

    /** The first part of `move_kv`: a live record is half-deleted before it is copied. */
    method PrepareMove(kv: KvInfo, ghost p: Pos, ghost prior: KvStatus)
      requires Ready() && Sane(log.secs) && At(log.secs, p, prior, kv.name) && Reports(kv, p.sec, RecAt(log.secs, p))
      requires prior == PreDelete || (prior == Write && Lookup(log.secs, PreDelete, kv.name) == None && !NoGc(log.secs))
      requires AllRight(kvCache, log.secs)
      modifies this`lastIsCompleteDel, this`kvCache, log`secs, log`trace, log`cache, log.flash
      ensures Ready() && Sane(log.secs) && SameMap(old(log.secs), log.secs)
      ensures log.secs == Prepared(old(log.secs), p, prior)
      ensures LagKept(old(log.secs), log.secs)
      ensures (forall k :: k != kv.name ==> Stored(log.secs, k) == Stored(old(log.secs), k))
      ensures Guarded(old(log.secs)) ==>
                Guarded(log.secs) && AllRestart(log.trace, |old(log.trace)|, !NoGc(old(log.secs)))
      ensures NoGc(log.secs) <==> NoGc(old(log.secs))
      ensures Extends(old(log.trace), log.trace) && AllSame(log.trace, |old(log.trace)|, old(log.secs))
      ensures At(log.secs, p, PreDelete, kv.name) && RightExcept(kvCache, log.secs, NameCrc(kv.name))
      ensures prior == Write ==> Stored(log.secs, kv.name) == None && lastIsCompleteDel
      ensures prior == PreDelete ==> AllRight(kvCache, log.secs) && lastIsCompleteDel == old(lastIsCompleteDel)
      ensures prior == PreDelete ==> log.trace == old(log.trace)
    {
      hide KvLog.Log.Valid, At, NameCrc, AllRight, RightExcept, Sane, SameMap, AllSame, Extends, Restated, DeletedView,
           Lookup, Reports, RecShape, SectorShape, Settled, Exact, Guarded, AllRestart, NoGc, Solid, LagKept;
      ghost var a, t0 := log.secs, log.trace;
      AtParts(a, p, prior, kv.name);
      LagKeptSelf(a);
      RestartNone(t0);
      log.Facts();
      ShapedShape(a, log.flash.secSize, p.sec, p.idx);
      ReportsStatus(kv, p.sec, a, p);
      AllRightIsExcept(kvCache, a, NameCrc(kv.name));
      ExtendsSelf(t0);
      AllSameNone(t0, a);
      SameMapSelf(a);
      if kv.status == Write {
        DelKv(kv.name, kv, false, p, prior);
        PrepareStep(t0, log.trace, |t0|, a, a, p, kv.name);
        DeletedLag(a, p, PreDelete);
        RestatedHeaders(a, p, PreDelete);
        if Guarded(a) {
          DeleteRestarts(t0, log.trace, a, p, PreDelete, kv.name, prior);
        }
      }
    }

    /** The last part of `move_kv`: copy the half-deleted record, enter its address, delete the old one. */
    method FinishMove(info: SecInfo, kv: KvInfo, ghost p: Pos)
      requires Ready() && Sane(log.secs) && At(log.secs, p, PreDelete, kv.name) && Stored(log.secs, kv.name) == None
      requires kv.start == Addr(p.sec, RecAt(log.secs, p).off) && kv.len == RecAt(log.secs, p).Len()
      requires RoomAt(info, log.secs, log.flash.secSize, info.sec, kv.len)
      requires RightExcept(kvCache, log.secs, NameCrc(kv.name))
      requires AllEven(log.secs) || Solid(kv.name, ValueAt(log.secs, p))
      modifies this`lastIsCompleteDel, this`kvCache, log`secs, log`trace, log`cache, log.flash
      ensures Ready() && Sane(log.secs) && SameMap(old(log.secs), log.secs) && AllRight(kvCache, log.secs)
      ensures !lastIsCompleteDel
      ensures info.sec < |old(log.secs)| && IsRec(old(log.secs), p.sec, p.idx)
      ensures log.secs == CopiedView(old(log.secs), p, info.sec)
      ensures Extends(old(log.trace), log.trace) && AllSame(log.trace, |old(log.trace)|, old(log.secs))
      ensures LagKept(old(log.secs), log.secs)
      ensures (forall k :: k != kv.name ==> Stored(log.secs, k) == Stored(old(log.secs), k))
      ensures SpareKept(log.trace, |old(log.trace)|, old(log.secs))
      ensures CopyGuard(old(log.secs), p, info.sec) ==>
                Guarded(log.secs) && AllRestart(log.trace, |old(log.trace)|, !NoGc(old(log.secs)))
    {
      hide KvLog.Log.Valid, At, NameCrc, AllRight, RightExcept, SameMap, AllSame, Restated, DeletedView, Lookup,
           RecShape, SectorShape, Settled, Exact, Shaped, Stages, JustOpened, Updated, PointsAt, Appended, Firm,
           AllEven, Even, Solid, Guarded, AllRestart, NoGc, Tame, ReserveBeside, LagKept, SpareKept;
      ghost var v, t0, r := log.secs, log.trace, RecAt(log.secs, p);
      AtParts(v, p, PreDelete, kv.name);
      log.Facts();
      ShapedShape(v, log.flash.secSize, p.sec, p.idx);
      PlaceHere(v, info.sec, r.key, r.value);
      SolidFirm(r);
      LookupIs(v, PreDelete, kv.name, p);
      ExtendsSelf(t0);
      AllSameNone(t0, v);
      SameMapSelf(v);
      log.CopyRecord(info, kv.start, kv.len, p.idx);
      ghost var w, t1 := log.secs, log.trace;
      CopyStep(t0, t1, |t0|, v, v, info.sec, kv.name, r.value);
      AppendedLag(v, info.sec, kv.name, r.value);
      AppendKeepsRec(v, p, info.sec, kv.name, r.value);
      AtIs(w, p, PreDelete, kv.name);
      AppendedTable(kvCache, v, info.sec, kv.name, r.value);
      RightSize(kvCache, w, NameCrc(kv.name));
      ghost var was := kvCache;
      UpdateKvCache(kv.name, Some(Addr(info.sec, info.emptyKv.value)));
      UpdateRights(was, kvCache, w, NameCrc(kv.name), Some(Addr(info.sec, info.emptyKv.value)));
      AllRightIsExcept(kvCache, w, NameCrc(kv.name));
      TraceShaped();
      DelKv(kv.name, kv, true, p, PreDelete);
      FinishStep(t1, log.trace, |t0|, v, w, p, kv.name);
      FinishSpare(t0, t1, log.trace, v, p, info.sec, kv.name, r.value);
      ExtendsTrans(t0, t1, log.trace);
      DeletedLag(w, p, Deleted);
      LagKeptTrans(v, w, log.secs);
      if CopyGuard(v, p, info.sec) {
        CopyRestarts(t0, t1, log.trace, v, p, info.sec, kv.name, log.flash.secSize);
      }
    }

    /** Every view recorded has the shape of a store. */
    lemma TraceShaped()
      requires Ready()
      ensures AllShaped(log.trace, log.flash.secSize) && log.flash.secSize < U32_LIMIT
    {
      hide BytesOf, Shaped, CacheOk, Settled, Exact;
    }

    /**
      The part of `move_kv` behind the allocation: copy the half-deleted record and delete it.
      During recovery a record whose replacement is already live is only deleted.
    */
    method PlaceMove(info: SecInfo, kv: KvInfo, ghost p: Pos) returns (ghost copied: bool, ghost m: View)
      requires Ready() && Sane(log.secs) && At(log.secs, p, PreDelete, kv.name)
      requires kv.start == Addr(p.sec, RecAt(log.secs, p).off) && kv.len == RecAt(log.secs, p).Len()
      requires RoomAt(info, log.secs, log.flash.secSize, info.sec, kv.len)
      requires if inRecovery && kv.status == PreDelete then AllRight(kvCache, log.secs)
               else Stored(log.secs, kv.name) == None && RightExcept(kvCache, log.secs, NameCrc(kv.name))
      requires AllEven(log.secs) || Solid(kv.name, ValueAt(log.secs, p))
      modifies this`lastIsCompleteDel, this`kvCache, log`secs, log`trace, log`cache, log.flash
      ensures Ready() && Sane(log.secs) && SameMap(old(log.secs), log.secs) && AllRight(kvCache, log.secs)
      ensures !lastIsCompleteDel
      ensures Extends(old(log.trace), log.trace) && AllSame(log.trace, |old(log.trace)|, old(log.secs))
      ensures MarkedFrom(old(log.secs), m) && Placed(m, log.secs, p, info.sec, copied)
      ensures !(inRecovery && kv.status == PreDelete) ==> copied
      ensures LagKept(old(log.secs), log.secs)
      ensures (forall k :: k != kv.name ==> Stored(log.secs, k) == Stored(old(log.secs), k))
      ensures SpareKept(log.trace, |old(log.trace)|, old(log.secs))
      ensures CopyGuard(old(log.secs), p, info.sec) ==> AllRestart(log.trace, |old(log.trace)|, !NoGc(old(log.secs)))
    {
      hide KvLog.Log.Valid, At, NameCrc, AllRight, RightExcept, Sane, SameMap, AllSame, Restated, DeletedView, Lookup,
           RecShape, SectorShape, Settled, Exact, Shaped, PointsAt, Reports, MarkedFrom, OnlyMarks, RoomAt, CopiedView,
           Solid, AllEven, LagKept, CopyGuard, AllRestart, Guarded, SpareKept;
      ghost var a, t0 := log.secs, log.trace;
      log.Facts();
      SameMapSelf(a);
      AllSameNone(t0, a);
      ExtendsSelf(t0);
      NothingMarked(a, t0);
      LagKeptSelf(a);
      RestartNone(t0);
      if inRecovery && kv.status == PreDelete {
        var f;
        ghost var fp;
        f, fp := FindKvNoCache(kv.name);
        MarkedStep(t0, t0, log.trace, a, a, log.secs);
        MarkedTable(kvCache, a, log.secs, NameCrc(kv.name));
        MarkedAt(a, log.secs, p, PreDelete, kv.name);
        MarkedRoom(a, log.secs, log.flash.secSize, info, kv.len);
        AllRightIsExcept(kvCache, log.secs, NameCrc(kv.name));
        MarkedFit(a, log.secs);
        MarkedHeaders(a, log.secs);
        PlaceStays(a, log.secs, kv.name, ValueAt(a, p));
        if CopyGuard(a, p, info.sec) {
          MarkedCopyGuard(a, log.secs, p, info.sec, kv.name);
          CopyGuarded(a, p, info.sec);
          MarksRestart(log.trace, |t0|, a);
        }
        if f.Some? {
          ghost var t1 := log.trace;
          m, copied := log.secs, false;
          FoundStored(m, kv.name, fp);
          AtParts(m, p, PreDelete, kv.name);
          DelKv(kv.name, kv, true, p, PreDelete);
          FinishStep(t1, log.trace, |t0|, a, m, p, kv.name);
          GoneSpare(t1, log.trace, m, p);
          MarksThen(t0, t1, log.trace, a, m);
          ExtendsTrans(t0, t1, log.trace);
          DeletedLag(m, p, Deleted);
          LagKeptTrans(a, m, log.secs);
          if CopyGuard(a, p, info.sec) {
            CopyGuarded(m, p, info.sec);
            DeleteRestarts(t1, log.trace, m, p, Deleted, kv.name, PreDelete);
            RestartChain(t1, log.trace, |t0|, !NoGc(a));
          }
          return;
        }
        LookupNone(log.secs, Write, kv.name);
      }
      ghost var t1 := log.trace;
      m, copied := log.secs, true;
      AtParts(m, p, PreDelete, kv.name);
      FinishMove(info, kv, p);
      MarksThen(t0, t1, log.trace, a, m);
      AllSameChain(t1, log.trace, |t0|, a, m);
      ExtendsTrans(t0, t1, log.trace);
      SameMapTrans(a, m, log.secs);
      LagKeptTrans(a, m, log.secs);
      if CopyGuard(a, p, info.sec) {
        RestartChain(t1, log.trace, |t0|, !NoGc(a));
      }
    }

    /** `move_kv`: half-delete the record if it is live, find room, copy it and delete it. */
    method MoveKv(kv: KvInfo, ghost p: Pos, ghost prior: KvStatus) returns (ok: bool, ghost t: int)
      requires Ready() && Sane(log.secs) && At(log.secs, p, prior, kv.name) && Reports(kv, p.sec, RecAt(log.secs, p))
      requires (prior == PreDelete && inRecovery) ||
               (prior == Write && Lookup(log.secs, PreDelete, kv.name) == None && !NoGc(log.secs))
      requires AllRight(kvCache, log.secs) && (gcRequest || NoGc(log.secs))
      requires AllEven(log.secs) || Solid(kv.name, ValueAt(log.secs, p))
      modifies this`lastIsCompleteDel, this`kvCache, this`gcRequest, log`secs, log`trace, log`cache, log.flash
      ensures Ready() && Sane(log.secs) && SameMap(old(log.secs), log.secs) && LagKept(old(log.secs), log.secs)
      ensures Extends(old(log.trace), log.trace) && AllSame(log.trace, |old(log.trace)|, old(log.secs))
      ensures old(gcRequest) ==> gcRequest
      ensures ok ==> AllRight(kvCache, log.secs) && !lastIsCompleteDel && Settles(old(log.secs), log.secs, p)
      ensures ok ==> HeadersKept(old(log.secs), log.secs) && |Empties(log.secs)| + 1 >= |Empties(old(log.secs))|
      ensures ok && !old(gcRequest) ==> ReserveKept(old(log.secs), log.secs) && !gcRequest
      ensures !ok ==>
                MarkedFrom(Prepared(old(log.secs), p, prior), log.secs) &&
                RightExcept(kvCache, log.secs, NameCrc(kv.name))
      ensures ok <==> !NoChoice(Prepared(old(log.secs), p, prior), log.flash.secSize, kv.len, old(gcRequest))
      ensures !ok && |Empties(Prepared(old(log.secs), p, prior))| == 1 ==> gcRequest
      ensures !ok && prior == PreDelete ==>
                AllRight(kvCache, log.secs) && lastIsCompleteDel == old(lastIsCompleteDel)
      ensures ok && NoMarks(old(log.secs)) && prior == Write ==>
                MovedTo(old(log.secs), log.secs, p, t, log.flash.secSize, oldest, kv.len, old(gcRequest))
      ensures forall k :: k != kv.name ==> Stored(log.secs, k) == Stored(old(log.secs), k)
      ensures prior == PreDelete ==>
                SpareKept(log.trace, |old(log.trace)|, old(log.secs))
      ensures MoveGuard(old(log.secs), p, kv.name, old(gcRequest)) ==>
                AllRestart(log.trace, |old(log.trace)|, !NoGc(old(log.secs)))
    {
      hide KvLog.Log.Valid, At, NameCrc, AllRight, RightExcept, Sane, SameMap, AllSame, Restated, DeletedView, Lookup,
           RecShape, HeadersKept, ReserveKept, Placed, Prepared, SectorShape, Settled, Exact, Shaped, PointsAt, Reports,
           Settles, MarkedFrom, OnlyMarks, Chosen, NoChoice, NoFit, RoomAt, CopiedView, NoMarks, NoGc, Empties, MovedTo,
           Solid, AllEven, LagKept, CopyGuard, AllRestart, Guarded, Tame, SpareKept, GoesTo, AnyTakes;
      ghost var a, t0 := log.secs, log.trace;
      log.Facts();
      AtParts(a, p, prior, kv.name);
      ShapedShape(a, log.flash.secSize, p.sec, p.idx);
      PriorFacts(kv, a, log.flash.secSize, p, prior);
      PrepareMove(kv, p, prior);
      ghost var v, t1 := log.secs, log.trace;
      log.Facts();
      PreparedGc(a, p, prior);
      PreparedSame(a, p);
      PreparedValue(a, p, prior);
      t := -1;
      var r := AllocKv(kv.len);
      ghost var c, t2 := log.secs, log.trace;
      MarkedStep(t0, t1, t2, a, v, c);
      MarkedTable(kvCache, v, c, NameCrc(kv.name));
      MarkedAt(v, c, p, PreDelete, kv.name);
      MarkedFit(v, c);
      MarkedHeaders(v, c);
      LagKeptTrans(a, v, c);
      ghost var guard := MoveGuard(a, p, kv.name, old(gcRequest));
      if guard {
        MarksRestart(t2, |t1|, v);
        RestartChain(t1, t2, |t0|, !NoGc(a));
      }
      if r.None? {
        MarksOnlySpare(t1, t2, v);
        if !old(gcRequest) {
          NoChoiceParts(v, log.flash.secSize, kv.len, false);
        }
        return false, -1;
      }
      if !old(gcRequest) {
        ChosenUnrequested(v, log.flash.secSize, oldest, kv.len, r.value.sec);
      }
      if guard {
        if NoGc(v) {
          TameKept(a, v, kv.name, ValueAt(a, p));
        }
        MoveGuarded(v, c, p, log.flash.secSize, oldest, kv.len, old(gcRequest), r.value.sec, kv.name);
      }
      PlaceStays(a, c, kv.name, ValueAt(a, p));
      ghost var copied, m;
      copied, m := PlaceMove(r.value, kv, p);
      MarksThen(t1, t2, log.trace, v, c);
      ok, t := true, r.value.sec;
      AllSameChain(t2, log.trace, |t0|, a, c);
      ExtendsTrans(t0, t2, log.trace);
      SameMapTrans(a, c, log.secs);
      LagKeptTrans(a, c, log.secs);
      MarkedFromTrans(v, c, m);
      if guard {
        RestartChain(t2, log.trace, |t0|, !NoGc(a));
      }
      MoveDoes(a, v, m, log.secs, p, prior, r.value.sec, copied, log.flash.secSize, oldest, kv.len, old(gcRequest));
    }

    // ----- garbage collection -----

    /** The record loop of `do_gc`: every live record of sector `g` moves out; none is ever refused. */
    method CollectRecords(g: nat, ghost floor: nat)
      requires Ready() && Resting(log.secs, g) && g < |log.secs| && log.secs[g].store == Using && log.secs[g].dirt == Gc
      requires gcRequest && !inRecovery && AllRight(kvCache, log.secs) && HasRoom(log.secs, g, SECTOR_HDR, floor)
      requires Movable(log.secs)
      modifies this`lastIsCompleteDel, this`kvCache, this`gcRequest, log`secs, log`trace, log`cache, log.flash
      ensures Ready() && Resting(log.secs, g) && |log.secs| == |old(log.secs)| && log.secs[g].store == Using
      ensures log.secs[g].dirt == Gc
      ensures forall i :: 0 <= i < |log.secs[g].recs| ==> log.secs[g].recs[i].status != Write
      ensures gcRequest && AllRight(kvCache, log.secs) && |Empties(log.secs)| + 1 >= floor
      ensures SameMap(old(log.secs), log.secs) && DirtKept(old(log.secs), log.secs, g)
      ensures LagKept(old(log.secs), log.secs)
      ensures log.secs == Emptied(old(log.secs), log.flash.secSize, oldest, g, |old(log.secs)[g].recs|)
      ensures !old(lastIsCompleteDel) ==> !lastIsCompleteDel
      ensures Extends(old(log.trace), log.trace) && AllSame(log.trace, |old(log.trace)|, old(log.secs))
      ensures AllRestart(log.trace, |old(log.trace)|, true)
    {
      hide KvLog.Log.Valid, At, AllRight, Sane, SameMap, AllSame, Lookup, RecShape, SectorShape, Settled, Exact, Shaped,
           Reports, HasRoom, NoMarks, NoGc, Resting, RestSector, MovedTo, Settles, NoChoice, MarkedFrom, NextVisible,
           Empties, Chosen, Movable, LagKept, AllRestart, Emptied, MovedOut, WalkedPast, DirtKept, Locates;
      ghost var base, t0, size := log.secs, log.trace, log.flash.secSize;
      WalkStart(g);
      SameMapSelf(base);
      LagKeptSelf(base);
      DirtKeptSelf(base, g);
      ExtendsSelf(t0);
      AllSameNone(t0, base);
      RestartNone(t0);
      EmptiedNone(base, size, oldest, g);
      var off := SECTOR_HDR;
      ghost var j: nat := 0;
      while true
        invariant Ready() && gcRequest && !inRecovery && AllRight(kvCache, log.secs) && oldest == old(oldest)
        invariant |log.secs| == |base| && IsRec(log.secs, g, j) && log.secs[g].recs[j].off == off
        invariant Visible(log.secs[g].recs[j])
        invariant log.secs[g].store == Using && log.secs[g].dirt == Gc && |log.secs[g].recs| == |base[g].recs|
        invariant Resting(log.secs, g) && HasRoom(log.secs, g, off, floor) && SameMap(base, log.secs)
        invariant Movable(log.secs)
        invariant Extends(t0, log.trace) && AllSame(log.trace, |t0|, base) && DirtKept(base, log.secs, g)
        invariant LagKept(base, log.secs)
        invariant AllRestart(log.trace, |t0|, true) && log.secs == Emptied(base, size, oldest, g, j)
        invariant !old(lastIsCompleteDel) ==> !lastIsCompleteDel
        invariant forall i :: 0 <= i < j ==> log.secs[g].recs[i].status != Write
        decreases |base[g].recs| - j
      {
        ghost var a := log.secs;
        var kv := CollectOne(g, off, j, floor, base, t0);
        EmptiedNext(base, a, log.secs, size, oldest, g, j);
        WalkedOn(base, a, log.secs, g, j, floor, kv);
        var next := log.GetNextKv(Using, kv, j);
        log.Facts();
        SkippedNotLive(log.secs, log.flash.secSize, g, j, floor);
        EmptiedSkips(base, size, oldest, g, j + 1, NextVisible(log.secs[g].recs, j));
        if next.None? {
          break;
        }
        j, off := NextVisible(log.secs[g].recs, j), next.value;
      }
      HasRoomFloor(log.secs, g, log.secs[g].recs[j].End(), floor);
    }

    /** One turn of that loop. */
    method CollectOne(g: nat, off: nat, ghost j: nat, ghost floor: nat, ghost base: View, ghost t0: seq<View>)
      returns (kv: KvInfo)
      requires Ready() && gcRequest && !inRecovery && AllRight(kvCache, log.secs)
      requires IsRec(log.secs, g, j) && log.secs[g].recs[j].off == off && Visible(log.secs[g].recs[j])
      requires log.secs[g].store == Using && log.secs[g].dirt == Gc && Movable(log.secs)
      requires Resting(log.secs, g) && HasRoom(log.secs, g, off, floor) && SameMap(base, log.secs)
      requires Extends(t0, log.trace) && AllSame(log.trace, |t0|, base) && AllRestart(log.trace, |t0|, true)
      modifies this`lastIsCompleteDel, this`kvCache, this`gcRequest, log`secs, log`trace, log`cache, log.flash
      ensures Ready() && gcRequest && AllRight(kvCache, log.secs) && (!old(lastIsCompleteDel) ==> !lastIsCompleteDel)
      ensures WalkedPast(old(log.secs), log.secs, g, j, floor, kv) && SameMap(base, log.secs) && kv.start.sec == g
      ensures Movable(log.secs)
      ensures Extends(t0, log.trace) && AllSame(log.trace, |t0|, base) && AllRestart(log.trace, |t0|, true)
      ensures log.secs == if old(log.secs)[g].recs[j].status == Write then
                  MovedOut(old(log.secs), log.flash.secSize, oldest, g, j)
                          else old(log.secs)
    {
      hide KvLog.Log.Valid, At, AllRight, Sane, SameMap, AllSame, Lookup, RecShape, SectorShape, Settled, Exact, Shaped,
           Reports, HasRoom, NoMarks, NoGc, Resting, RestSector, MovedTo, Settles, NoChoice, MarkedFrom, NextVisible,
           Empties, Chosen, Movable, LagKept, AllRestart, MovedOut, AllEven, Solid, Guarded, Tame;
      ghost var a, t1 := log.secs, log.trace;
      log.Facts();
      RestingNoMarks(a, g, log.flash.secSize);
      WalkStep(g, j);
      Unmarked(a, MarkRec(a, g, j));
      kv := log.ReadRecord(g, off, j);
      assert log.secs == a && log.trace == t1;
      RestingRead(kv, a, log.flash.secSize, g, j);
      RestingNoPreDelete(a, g);
      if kv.crcOk && (kv.status == Write || kv.status == PreDelete) {
        RoomIsChoice(a, log.flash.secSize, g, j, floor, oldest);
        LiveSolid(a, Pos(g, j), kv.name);
        UnderGc(a, g);
        var ok;
        ghost var t;
        ok, t := MoveKv(kv, Pos(g, j), Write);
        MoveDone(a, log.secs, log.flash.secSize, g, j, t, oldest, floor, kv);
        MovedIs(a, log.secs, log.flash.secSize, oldest, g, j, t);
        MovableKept(a, log.secs);
        SameMapTrans(base, a, log.secs);
        AllSameChain(t1, log.trace, |t0|, base, a);
        RestartChain(t1, log.trace, |t0|, true);
        ExtendsTrans(t0, t1, log.trace);
      } else {
        SkipDone(a, log.flash.secSize, g, j, floor, kv);
      }
    }

    /** `do_gc` on a dirty sector: mark it, move its live records out, format it. */
    method CollectSector(g: nat)
      requires Ready() && Quiescent(log.secs) && g < |log.secs| && log.secs[g].dirt == Dirty
      requires gcRequest && !inRecovery && AllRight(kvCache, log.secs) && Movable(log.secs)
      modifies this`lastIsCompleteDel, this`kvCache, this`gcRequest, log`secs, log`trace, log`cache, log.flash
      ensures Ready() && Quiescent(log.secs) && gcRequest && AllRight(kvCache, log.secs)
      ensures |Empties(log.secs)| >= |Empties(old(log.secs))| && SameMap(old(log.secs), log.secs)
      ensures LagKept(old(log.secs), log.secs)
      ensures log.secs == Collected(old(log.secs), log.flash.secSize, oldest, g)
      ensures DirtKept(old(log.secs), log.secs, g) && log.secs[g].dirt == Clean
      ensures !old(lastIsCompleteDel) ==> !lastIsCompleteDel
      ensures Extends(old(log.trace), log.trace) && AllSame(log.trace, |old(log.trace)|, old(log.secs))
      ensures AllRestart(log.trace, |old(log.trace)|, true)
    {
      hide KvLog.Log.Valid, AllRight, Sane, SameMap, AllSame, SectorShape, Settled, Exact, Shaped, HasRoom, Resting,
           RestSector, Empties, Movable, LagKept, AllRestart, Emptied, NoGc, Restart;
      ghost var a, t0 := log.secs, log.trace;
      log.Facts();
      RestingDirt(a, log.flash.secSize, g);
      GcStart(a, log.flash.secSize, g);
      MovableKept(a, a[g := a[g].(dirt := Gc)]);
      log.SetGc(g);
      CollectedTable(kvCache, a, g, log.secs[g]);
      ghost var b, t1 := log.secs, log.trace;
      SameMapSelf(a);
      AllSameNone(t0, a);
      AllSameOne(t0, t1, |t0|, a, b);
      RestartNone(t0);
      MarkedGc(b, g);
      RestartOne(t0, t1, |t0|, b, true);
      CollectRecords(g, |Empties(a)|);
      ghost var c, t2 := log.secs, log.trace;
      log.Facts();
      AllSameChain(t1, t2, |t0|, a, b);
      RestartChain(t1, t2, |t0|, true);
      ExtendsTrans(t0, t1, t2);
      SameMapTrans(a, b, c);
      LagKeptTrans(a, b, c);
      log.FormatSector(g);
      FormatTrace(t0, t2, log.trace, a, c, g);
      FormatRestarts(t2, log.trace, c, g);
      RestartChain(t2, log.trace, |t0|, true);
      CollectedTable(kvCache, c, g, EMPTY_SECTOR);
      DirtKeptTrans(a, b, c, g);
      DirtKeptTrans(a, c, log.secs, g);
      LagKeptTrans(a, c, log.secs);
      CollectedIs(a, c, log.flash.secSize, oldest, g);
    }

    /**
      `do_gc`: the callback on one sector. It ends the collection exactly if it collected this sector and
      the one collected before has more than `freeSize` bytes free.
    */
    method DoGc(g: nat, freeSize: nat, lastGc: nat) returns (stop: bool, last: nat)
      requires Ready() && g < |log.secs| && lastGc < |log.secs| && gcRequest && AllRight(kvCache, log.secs)
      requires log.secs[g].dirt == Clean || (Quiescent(log.secs) && !inRecovery && Movable(log.secs))
      modifies this`lastIsCompleteDel, this`kvCache, this`gcRequest, this`oldest, log`secs, log`trace, log`cache,
               log.flash
      ensures Ready() && gcRequest && AllRight(kvCache, log.secs) && last < |log.secs|
      ensures Quiescent(old(log.secs)) ==> Quiescent(log.secs)
      ensures |Empties(log.secs)| >= |Empties(old(log.secs))| && SameMap(old(log.secs), log.secs)
      ensures LagKept(old(log.secs), log.secs)
      ensures DirtKept(old(log.secs), log.secs, g) && log.secs[g].dirt == Clean
      ensures !old(lastIsCompleteDel) ==> !lastIsCompleteDel
      ensures Extends(old(log.trace), log.trace) && AllSame(log.trace, |old(log.trace)|, old(log.secs))
      ensures AllRestart(log.trace, |old(log.trace)|, true)
      ensures stop <==> old(log.secs)[g].dirt == Dirty && log.flash.secSize - log.secs[lastGc].End() > freeSize
      ensures oldest == if old(log.secs)[g].dirt == Dirty then Behind(|old(log.secs)|, g) else old(oldest)
      ensures last == if old(log.secs)[g].dirt == Dirty then g else lastGc
      ensures GcState(log.secs, oldest, last, stop)
           == GcTurn(GcState(old(log.secs), old(oldest), lastGc, false), log.flash.secSize, freeSize, g)
    {
      hide KvLog.Log.Valid, AllRight, Sane, SameMap, AllSame, SectorShape, Settled, Exact, Shaped, HasRoom, Resting,
           RestSector, Empties, MarkRec, JustOpened, Movable, LagKept, AllRestart, Collected, Behind;
      stop, last := false, lastGc;
      NextIsNext(|log.secs|, g);
      ghost var a, t0 := log.secs, log.trace;
      log.Facts();
      if a[g].dirt != Clean {
        RestingDirt(a, log.flash.secSize, g);
      }
      SameMapSelf(a);
      LagKeptSelf(a);
      AllSameNone(t0, a);
      RestartNone(t0);
      var info := log.ReadSectorInfo(g, false);
      assert log.trace == t0;
      if info.checkOk && (info.dirt == Dirty || info.dirt == Gc) {
        CollectSector(g);
        ghost var b, t1 := log.secs, log.trace;
        last, oldest := g, NextSector(SecNum(), g);
        log.Facts();
        RestingDirt(b, log.flash.secSize, lastGc);
        var info2 := log.ReadSectorInfo(lastGc, true);
        ReadMarks(b, log.secs, lastGc);
        RestingUnmarked(b, log.secs, -1, log.flash.secSize);
        assert log.trace == t1;
        if info2.checkOk && info2.remain > freeSize {
          stop := true;
        }
      }
    }

    /**
      `gc_collect_by_free_size`: unless two empty sectors are left, collect round the ring until one
      sector ends it, or all of them. What it leaves is `GcRun`; without a dirty sector that is nothing new.
    */
    method GcCollect(freeSize: nat)
      requires Ready() && gcRequest && AllRight(kvCache, log.secs)
      requires AllClean(log.secs) || (Quiescent(log.secs) && !inRecovery && Movable(log.secs))
      modifies this`lastIsCompleteDel, this`kvCache, this`gcRequest, this`oldest, log`secs, log`trace, log`cache,
               log.flash
      ensures Ready() && !gcRequest && AllRight(kvCache, log.secs)
      ensures Quiescent(old(log.secs)) ==> Quiescent(log.secs)
      ensures |Empties(log.secs)| >= |Empties(old(log.secs))| && SameMap(old(log.secs), log.secs)
      ensures LagKept(old(log.secs), log.secs)
      ensures !old(lastIsCompleteDel) ==> !lastIsCompleteDel
      ensures Extends(old(log.trace), log.trace) && AllSame(log.trace, |old(log.trace)|, old(log.secs))
      ensures AllRestart(log.trace, |old(log.trace)|, true)
      ensures AllClean(old(log.secs)) ==> log.secs == old(log.secs) && oldest == old(oldest)
      ensures old(oldest) < |old(log.secs)| && if |Empties(old(log.secs))| <= 1 then
                CollectedOnce(old(log.secs), old(oldest), log.flash.secSize, freeSize, log.secs, oldest)
              else log.secs == old(log.secs) && oldest == old(oldest)
      ensures |Empties(old(log.secs))| <= 1 ==>
                var s := GcRun(GcState(old(log.secs), old(oldest),
                    LastSeen(old(log.secs), old(oldest), |old(log.secs)|), false),
                               log.flash.secSize, freeSize, old(oldest), |old(log.secs)|);
                log.secs == s.secs && oldest == s.oldest
    {
      hide KvLog.Log.Valid, AllRight, Sane, SameMap, AllSame, SectorShape, HasRoom, Quiescent, Empties, DirtKept, Dist,
           Movable, LagKept, AllRestart, GcTurn, LastSeen, SectorAfter, CollectedOnce, EndsBehindHeader;
      ghost var a, t0, size := log.secs, log.trace, log.flash.secSize;
      ghost var rest := Quiescent(a) && !inRecovery && Movable(a);
      SameMapSelf(a);
      LagKeptSelf(a);
      AllSameNone(t0, a);
      ExtendsSelf(t0);
      RestartNone(t0);
      Sweepable();
      var empty, lastEmpty := LastEmpty();
      if empty <= 1 {
        var sec, k, num, lastGc := oldest, 0, log.flash.secNum, lastEmpty;
        ghost var from, start := oldest, GcState(a, oldest, lastEmpty, false);
        DistStart(from, num);
        AfterDist(from, num, from);
        var stop := false;
        while !stop && k < num
          invariant Ready() && gcRequest && AllRight(kvCache, log.secs) && |a| == num
          invariant (rest ==> Quiescent(log.secs) && !inRecovery && Movable(log.secs))
          invariant (Quiescent(a) ==> Quiescent(log.secs))
          invariant AllClean(a) ==> log.secs == a && oldest == from
          invariant k <= num && sec < num && lastGc < num && from < num
          invariant (k < num ==> SectorAfter(from, num, k) == sec)
          invariant |Empties(log.secs)| >= |Empties(a)| && SameMap(a, log.secs) && LagKept(a, log.secs)
          invariant !old(lastIsCompleteDel) ==> !lastIsCompleteDel
          invariant Extends(t0, log.trace) && AllSame(log.trace, |t0|, a) && AllRestart(log.trace, |t0|, true)
          invariant GcState(log.secs, oldest, lastGc, stop) == GcRun(start, size, freeSize, from, k)
          decreases !stop, num - k
        {
          ghost var b, t1 := log.secs, log.trace;
          GcRunNext(start, size, freeSize, from, k);
          CleanTurn(b, oldest, lastGc, size, freeSize, sec);
          stop, lastGc := DoGc(sec, freeSize, lastGc);
          SameMapTrans(a, b, log.secs);
          LagKeptTrans(a, b, log.secs);
          MovableKept(b, log.secs);
          AllSameChain(t1, log.trace, |t0|, a, b);
          RestartChain(t1, log.trace, |t0|, true);
          ExtendsTrans(t0, t1, log.trace);
          sec, k := NextSector(num, sec), k + 1;
          if k < num {
            NextAfter(from, num, k);
          }
        }
        if stop {
          EndedStays(start, size, freeSize, from, k, num);
        }
        GcLaw(a, size, freeSize, from);
      }
      gcRequest := false;
    }

    lemma Sweepable()
      requires Ready() && (AllClean(log.secs) || Quiescent(log.secs))
      ensures EndsBehindHeader(log.secs) && forall i :: 0 <= i < |log.secs| ==> log.secs[i].dirt in {Clean, Dirty}
    {
      hide EndsBehindHeader, Shaped, BytesOf, CacheOk, Settled, Exact, Empties, Unique, Faithful;
      FaithfulShaped();
      if AllClean(log.secs) {
        CleanSweeps(log.secs, log.flash.secSize);
      } else {
        RestingSweeps(log.secs, log.flash.secSize);
      }
    }

    /** `gc_check_cb` over the empty sectors: how many, and the last of them in ring order. */
    method LastEmpty() returns (empty: nat, last: nat)
      requires Ready()
      modifies log`secs, log`trace, log`cache, log.flash
      ensures Ready() && log.secs == old(log.secs) && log.trace == old(log.trace)
      ensures empty == |Empties(log.secs)| && last == LastSeen(log.secs, oldest, |log.secs|) < |log.secs|
    {
      hide KvLog.Log.Valid, Shaped, Settled, Exact, DirtAgrees, JustOpened, Seen, WithStore, Dist, LastSeen;
      log.Facts();
      empty, last := 0, 0;
      var sec, k, num := oldest, 0, log.flash.secNum;
      ghost var base := log.secs;
      SeenEnds(base, oldest, Empty);
      DistStart(oldest, num);
      NoneSeen(base, oldest);
      while k < num
        invariant Ready() && k <= num && sec < num && last < num && (k < num ==> Dist(oldest, num, sec) == k)
        invariant log.secs == base && log.trace == old(log.trace)
        invariant empty == |Seen(base, oldest, k, Empty)| && last == LastSeen(base, oldest, k)
      {
        SeenStep(base, oldest, sec, Empty);
        LastSeenStep(base, oldest, sec);
        DistNext(oldest, num, sec);
        var info := log.ReadSectorInfo(sec, false);
        if info.store == Empty && info.checkOk {
          empty, last := empty + 1, sec;
        }
        sec, k := NextSector(num, sec), k + 1;
      }
    }

    // ----- set, delete and get -----

    /** What every operation finds and leaves. */
    ghost predicate Steady()
      reads this, log, log.flash
    {
      Ready() && Quiescent(log.secs) && AllRight(kvCache, log.secs) && !gcRequest && !inRecovery && !lastIsCompleteDel
    }

    /** `new_kv`: room for a record, if need be after one collection. */
    method NewKv(need: nat) returns (r: Option<SecInfo>)
      requires Steady() && (CollectionDue(log.secs, log.flash.secSize, need) ==> Movable(log.secs))
      modifies this`lastIsCompleteDel, this`kvCache, this`gcRequest, this`oldest, log`secs, log`trace, log`cache,
               log.flash
      ensures Steady() && SameMap(old(log.secs), log.secs) && LagKept(old(log.secs), log.secs)
      ensures Extends(old(log.trace), log.trace) && AllSame(log.trace, |old(log.trace)|, old(log.secs))
      ensures AllRestart(log.trace, |old(log.trace)|, CollectionDue(old(log.secs), log.flash.secSize, need))
      ensures old(oldest) < |old(log.secs)|
      ensures !CollectionDue(old(log.secs), log.flash.secSize, need) ==>
                log.secs == old(log.secs) && OnlyMarks(log.trace, |old(log.trace)|, old(log.secs)) &&
                oldest == old(oldest)
      ensures CollectionDue(old(log.secs), log.flash.secSize, need) ==>
                CollectedOnce(old(log.secs), old(oldest), log.flash.secSize, need, log.secs, oldest)
      ensures var s := RoomMade(old(log.secs), log.flash.secSize, old(oldest), need);
              log.secs == s.secs && oldest == s.oldest
      ensures r.None? <==> Refused(old(log.secs), log.flash.secSize, old(oldest), need)
      ensures r.Some? ==> RoomAt(r.value, log.secs, log.flash.secSize, r.value.sec, need)
      ensures r.Some? ==> Chosen(log.secs, log.flash.secSize, oldest, need, false, r.value.sec)
    {
      hide KvLog.Log.Valid, AllRight, Sane, SameMap, AllSame, SectorShape, Settled, Exact, HasRoom, RestSector, Empties,
           NoFit, FirstFit, MarkedFrom, OnlyMarks, NoGc, Movable, LagKept, AllRestart, RoomMade, GcRun, NoChoice,
           Chosen, Guarded, LastSeen, AnyTakes, GoesTo, CollectedOnce;
      ghost var a, t0, due := log.secs, log.trace, CollectionDue(log.secs, log.flash.secSize, need);
      log.Facts();
      RestingHasNoGc(a);
      RestingNoPreDelete(a, -1);
      RestingGuarded(a, -1);
      SameMapSelf(a);
      LagKeptSelf(a);
      RoomMadeIs(a, log.flash.secSize, oldest, need);
      r := AllocKv(need);
      RestingUnmarked(a, log.secs, -1, log.flash.secSize);
      ghost var t1 := log.trace;
      OnlyMarksSame(t1, |t0|, a);
      MarksRestart(t1, |t0|, a);
      RestartWeaken(t1, |t0|, due);
      if CollectionDue(a, log.flash.secSize, need) {
        DueRefuses(a, log.flash.secSize, need);
      }
      if r.None? && gcRequest {
        GcCollect(need);
        ghost var b, t2 := log.secs, log.trace;
        log.Facts();
        RestingHasNoGc(b);
        RestingNoPreDelete(b, -1);
        RestingGuarded(b, -1);
        AllSameChain(t1, t2, |t0|, a, a);
        RestartChain(t1, t2, |t0|, due);
        ExtendsTrans(t0, t1, t2);
        r := AllocKv(need);
        RestingUnmarked(b, log.secs, -1, log.flash.secSize);
        OnlyMarksSame(log.trace, |t2|, b);
        MarksRestart(log.trace, |t2|, b);
        RestartWeaken(log.trace, |t2|, due);
        AllSameChain(t2, log.trace, |t0|, a, b);
        RestartChain(t2, log.trace, |t0|, due);
        ExtendsTrans(t0, t2, log.trace);
        if CollectionDue(b, log.flash.secSize, need) {
          DueRefuses(b, log.flash.secSize, need);
        }
        if r.None? {
          gcRequest := false;
        }
      }
    }

    /** `fdb_kv_del` */
    method DelKey(key: Key) returns (err: Error)
      requires Steady() && NoClash(log.secs, key)
      modifies this`lastIsCompleteDel, this`kvCache, log`secs, log`trace, log`cache, log.flash
      ensures Steady() && LagKept(old(log.secs), log.secs)
      ensures err == if Stored(old(log.secs), key).Some? then NoErr else KvNameErr
      ensures forall k :: Stored(log.secs, k) == if k == key then None else Stored(old(log.secs), k)
      ensures Moment(log.secs, oldest) == AfterDel(Moment(old(log.secs), oldest), key)
      ensures Extends(old(log.trace), log.trace) && AllOldOrNew(log.trace, |old(log.trace)|, old(log.secs), key, None)
      ensures AllRestart(log.trace, |old(log.trace)|, false)
      ensures SetSpares(log.trace, |old(log.trace)|, old(log.secs), key, None)
    {
      hide KvLog.Log.Valid, AllRight, Sane, At, SameMap, AllSame, SectorShape, Quiescent, Reports, NameCrc, RecShape,
           Lookup, DeletedView, Restated, RightExcept, LagKept, AllOldOrNew, NoClash, Misled, Comparable, AllRestart,
           Guarded, OnlyMarks, NoGc, Solid, Where, AllSpare, Empties;
      ghost var a, t0 := log.secs, log.trace;
      QuiescentRests(a);
      QuiescentGuarded();
      Findable(key);
      LagKeptSelf(a);
      var r;
      ghost var p;
      r, p := FindKv(key, -1);
      ghost var t1 := log.trace;
      SameIsOldOrNew(t1, |t0|, a, key, None);
      MarksRestart(t1, |t0|, a);
      if r.None? {
        QuiescentSpare(a);
        MarksSpare(t1, |t0|, a, {}, |Empties(a)|);
        return KvNameErr;
      }
      FoundRecord(r.value, p, key);
      FoundStored(a, key, p);
      WhereIs(a, p, key);
      AllRightIsExcept(kvCache, a, NameCrc(key));
      DelKv(key, r.value, true, p, Write);
      DeleteStep(t1, log.trace, a, p, key);
      DelSpare(t0, t1, log.trace, a, p);
      DeleteRestarts(t1, log.trace, a, p, Deleted, key, Write);
      RestartChain(t1, log.trace, |t0|, false);
      SameMapSelf(a);
      OldThen(t1, log.trace, |t0|, a, a, key, None);
      ExtendsTrans(t0, t1, log.trace);
      err := NoErr;
    }

    /** A store between operations is fit for a boot. */
    lemma QuiescentGuarded()
      requires Ready() && Quiescent(log.secs)
      ensures Guarded(log.secs) && NoGc(log.secs) && Unique(log.secs, Write)
    {
      hide KvLog.Log.Valid, Settled, Exact, Empties, RestSector;
      log.Facts();
      RestingGuarded(log.secs, -1);
      RestingHasNoGc(log.secs);
    }

    lemma FoundRecord(kv: KvInfo, p: Pos, key: Key)
      requires Ready() && At(log.secs, p, Write, key) && Reports(kv, p.sec, RecAt(log.secs, p))
      ensures IsRec(log.secs, p.sec, p.idx) && kv.start == Addr(p.sec, RecAt(log.secs, p).off)
      ensures RecAt(log.secs, p).Complete()
      ensures RecShape(RecAt(log.secs, p)) && kv.valueLen == |ValueAt(log.secs, p)| && |key| < NAME_MAX
    {
      hide SectorShape, Settled, Exact, CacheOk, BytesOf;
      ShapedShape(log.secs, log.flash.secSize, p.sec, p.idx);
    }

    /** `fdb_kv_get_blob`: as much of the value as the buffer takes, and its full length. */
    method GetKv(key: Key, bufLen: nat) returns (data: seq<byte>, valueLen: nat)
      requires Steady() && Comparable(key)
      modifies this`kvCache, log`secs, log`trace, log`cache, log.flash
      ensures Steady() && log.secs == old(log.secs)
      ensures Extends(old(log.trace), log.trace) && AllSame(log.trace, |old(log.trace)|, old(log.secs))
      ensures AllRestart(log.trace, |old(log.trace)|, false)
      ensures !old(Misled(kvCache, log.flash.mem, log.secs, key)) ==>
                Gives(Stored(log.secs, key), bufLen, data, valueLen)
      ensures old(Misled(kvCache, log.flash.mem, log.secs, key)) ==>
                exists k :: k != key && Stored(log.secs, k).Some? && Gives(Stored(log.secs, k), bufLen, data, valueLen)
    {
      hide KvLog.Log.Valid, AllRight, Sane, At, SameMap, AllSame, SectorShape, Quiescent, Reports, NameCrc, RecShape,
           Lookup, NoClash, Misled, Comparable, AllRestart, Guarded, OnlyMarks;
      ghost var t0 := log.trace;
      QuiescentRests(log.secs);
      QuiescentGuarded();
      var r;
      ghost var p;
      r, p := FindKv(key, -1);
      MarksRestart(log.trace, |t0|, log.secs);
      data, valueLen := [], 0;
      if r.Some? {
        ghost var found := RecAt(log.secs, p).key;
        if At(log.secs, p, Write, key) {
          AtParts(log.secs, p, Write, key);
        }
        FoundStored(log.secs, found, p);
        valueLen := r.value.valueLen;
        FoundRecord(r.value, p, found);
        var readLen := if bufLen > valueLen then valueLen else bufLen;
        ValueBytes(r.value, p, found, readLen);
        data := log.flash.Read(r.value.start.sec, r.value.valueOff, readLen);
      }
    }

    /** What a get hands out for a stored value: as much as the buffer takes, and the full length. */
    ghost predicate Gives(value: Option<Value>, bufLen: nat, data: seq<byte>, valueLen: nat) {
      match value
      case None => data == [] && valueLen == 0
      case Some(v) => valueLen == |v| && data == v[..if bufLen > |v| then |v| else bufLen]
    }

    lemma FoundValue(kv: KvInfo, p: Pos, key: Key)
      requires Ready() && At(log.secs, p, Write, key) && Reports(kv, p.sec, RecAt(log.secs, p))
      ensures var r := RecAt(log.secs, p);
              kv.valueOff == r.off + KV_HDR + |r.key| && kv.start.sec == p.sec < |log.flash.mem|
      ensures log.flash.Valid() && |log.flash.mem| == log.flash.secNum
    {
      hide Shaped, Settled, Exact, CacheOk, BytesOf, Faithful, Image;
      FoundRecord(kv, p, key);
    }

    lemma ValueBytes(kv: KvInfo, p: Pos, key: Key, n: nat)
      requires Ready() && At(log.secs, p, Write, key) && Reports(kv, p.sec, RecAt(log.secs, p))
      requires n <= |ValueAt(log.secs, p)|
      ensures log.flash.Valid() && kv.start.sec < log.flash.secNum && kv.valueOff + n <= log.flash.secSize
      ensures |log.flash.mem[kv.start.sec]| == log.flash.secSize
      ensures log.flash.mem[kv.start.sec][kv.valueOff..kv.valueOff + n] == ValueAt(log.secs, p)[..n]
    {
      hide Shaped, Settled, Exact, CacheOk, BytesOf, RecShape, Image, Reports, Faithful;
      FoundValue(kv, p, key);
      var r, b := RecAt(log.secs, p), log.flash.mem[p.sec];
      RecInPlace(log.flash.mem, log.secs, log.flash.secSize, p.sec, p.idx);
      FoundRecord(kv, p, key);
      BodyReads(b, r);
      SubSlice(b, kv.valueOff, |r.value|, 0, n);
    }

    /** `create_kv_blob` at the place found for it: the name check, the record, the table entry. */
    method CreateKv(info: SecInfo, key: Key, value: Value) returns (err: Error)
      requires Ready() && Sane(log.secs) && Stored(log.secs, key) == None
      requires RightExcept(kvCache, log.secs, NameCrc(key))
      requires RoomAt(info, log.secs, log.flash.secSize, info.sec, Size(key, value)) && |key| != NAME_MAX
      requires Storable(key, value) ==> Even(log.secs[info.sec]) || FirmValue(key, value)
      modifies this`kvCache, log`secs, log`trace, log`cache, log.flash
      ensures Ready() && info.sec < |old(log.secs)|
      ensures err == if |key| > NAME_MAX then KvNameErr else NoErr
      ensures err != NoErr ==> log.secs == old(log.secs) && log.trace == old(log.trace) && kvCache == old(kvCache)
      ensures err == NoErr ==>
                log.secs == old(log.secs)[info.sec := Appended(old(log.secs)[info.sec], key, value)] &&
                AllRight(kvCache, log.secs)
      ensures err == NoErr ==>
                Sane(log.secs) && Landed(log.secs, old(log.secs), key, Some(value)) &&
                Stored(log.secs, key) == Some(value)
      ensures err == NoErr ==> forall k :: Lookup(log.secs, PreDelete, k) == Lookup(old(log.secs), PreDelete, k)
      ensures err == NoErr ==> forall k :: k != key ==> Stored(log.secs, k) == Stored(old(log.secs), k)
      ensures err == NoErr ==>
                Extends(old(log.trace), log.trace) &&
                AllOldOrNew(log.trace, |old(log.trace)|, old(log.secs), key, Some(value))
      ensures SpareKept(log.trace, |old(log.trace)|, old(log.secs))
      ensures AddGuard(old(log.secs), info.sec, key, value) ==>
                AllRestart(log.trace, |old(log.trace)|, !NoGc(old(log.secs))) && Guarded(log.secs)
    {
      hide KvLog.Log.Valid, AllRight, RightExcept, Sane, Lookup, Shaped, Settled, Exact, NameCrc, Updated, PointsAt,
           Stages, Appended, LagKept, FirmValue, AllOldOrNew, Landed, JustOpened, AllRestart, Guarded, AddGuard, NoGc,
           ReserveBeside, Even, AllSpare, Halves, Slack;
      ghost var v, t0 := log.secs, log.trace;
      if |key| > NAME_MAX {
        KeptNone(t0, v);
        RestartNone(t0);
        AddGuarded(v, info.sec, key, value);
        return KvNameErr;
      }
      log.Facts();
      log.SizeFact();
      RoomIsEnough(info, v, log.flash.secSize, key, value);
      if Size(key, value) > log.flash.secSize - SECTOR_HDR {
        assert false;
      }
      log.CreateRecord(info, key, value);
      CreateStep(t0, log.trace, v, info.sec, key, value);
      StagesSpare(log.trace, |t0|, v, info.sec, key, value, Halves(v), Slack(v) - 1);
      TraceShaped();
      if AddGuard(v, info.sec, key, value) {
        AddRestarts(t0, log.trace, v, info.sec, key, value, log.flash.secSize);
      }
      AppendedTable(kvCache, v, info.sec, key, value);
      RightSize(kvCache, log.secs, NameCrc(key));
      ghost var was := kvCache;
      UpdateKvCache(key, Some(Addr(info.sec, info.emptyKv.value)));
      UpdateRights(was, kvCache, log.secs, NameCrc(key), Some(Addr(info.sec, info.emptyKv.value)));
      err := NoErr;
    }

    /** The rest of `set_kv` when no record of the key was found. */
    method StoreNew(info: SecInfo, key: Key, value: Value) returns (err: Error)
      requires Steady() && Stored(log.secs, key) == None && |key| != NAME_MAX
      requires RoomAt(info, log.secs, log.flash.secSize, info.sec, Size(key, value))
      requires Chosen(log.secs, log.flash.secSize, oldest, Size(key, value), false, info.sec)
      requires Storable(key, value) ==> Even(log.secs[info.sec]) || FirmValue(key, value)
      modifies this`kvCache, log`secs, log`trace, log`cache, log.flash
      ensures Steady() && err == (if |key| > NAME_MAX then KvNameErr else NoErr) && LagKept(old(log.secs), log.secs)
      ensures forall k ::
                Stored(log.secs, k) == if err == NoErr && k == key then Some(value) else Stored(old(log.secs), k)
      ensures log.secs == if err == NoErr then Written(old(log.secs), info.sec, key, value) else old(log.secs)
      ensures Extends(old(log.trace), log.trace)
      ensures AllOldOrNew(log.trace, |old(log.trace)|, old(log.secs), key, Some(value))
      ensures Tame(old(log.secs), key, value) ==> AllRestart(log.trace, |old(log.trace)|, false)
      ensures AllSpare(log.trace, |old(log.trace)|, {}, |Empties(old(log.secs))| - 1)
    {
      hide Booting, ReserveBeside, KvLog.Log.Valid, AllRight, RightExcept, Sane, Lookup, NameCrc, Appended, LagKept,
           FirmValue, Landed, Quiescent, RoomAt, Chosen, Stored, AllRestart, Guarded, NoGc, Even, Tame, SpareKept,
           AllSpare;
      ghost var a, t0 := log.secs, log.trace;
      QuiescentRests(a);
      QuiescentGuarded();
      LagKeptSelf(a);
      ExtendsSelf(t0);
      ChosenStore(a, log.flash.secSize, oldest, Size(key, value), info.sec);
      ChosenLeaves(a, log.flash.secSize, oldest, Size(key, value), info.sec);
      AllRightIsExcept(kvCache, a, NameCrc(key));
      err := CreateKv(info, key, value);
      StoreSpare(log.trace, |t0|, a);
      if err == NoErr {
        SetNewRests(a, info.sec, key, value);
      }
    }

    /** The rest of `set_kv` when the old record was found at `p`: half-delete it, write, delete it. */
    method Replace(info: SecInfo, key: Key, value: Value, kv: KvInfo, ghost p: Pos) returns (err: Error)
      requires Steady() && At(log.secs, p, Write, key) && Reports(kv, p.sec, RecAt(log.secs, p))
      requires RoomAt(info, log.secs, log.flash.secSize, info.sec, Size(key, value))
      requires Chosen(log.secs, log.flash.secSize, oldest, Size(key, value), false, info.sec)
      requires Storable(key, value) ==> Even(log.secs[info.sec]) || FirmValue(key, value)
      modifies this`lastIsCompleteDel, this`kvCache, log`secs, log`trace, log`cache, log.flash
      ensures Steady() && err == NoErr && LagKept(old(log.secs), log.secs) && |key| < NAME_MAX
      ensures forall k :: Stored(log.secs, k) == if k == key then Some(value) else Stored(old(log.secs), k)
      ensures log.secs == Written(old(log.secs), info.sec, key, value)
      ensures Extends(old(log.trace), log.trace)
      ensures AllOldOrNew(log.trace, |old(log.trace)|, old(log.secs), key, Some(value))
      ensures Tame(old(log.secs), key, value) && Solid(key, ValueAt(old(log.secs), p)) ==>
                AllRestart(log.trace, |old(log.trace)|, false)
      ensures AllSpare(log.trace, |old(log.trace)|, {p}, |Empties(old(log.secs))| - 2)
      ensures HalfPoint(log.trace, |old(log.trace)|, old(log.secs), key)
    {
      hide Booting, ReserveBeside, KvLog.Log.Valid, AllRight, RightExcept, Sane, At, Lookup, NameCrc, Appended,
           DeletedView, Restated, LagKept, FirmValue, Landed, Quiescent, RoomAt, Chosen, Reports, RecShape, Shaped,
           Settled, Exact, AllSame, AllOldOrNew, SameMap, AllRestart, Guarded, NoGc, Even, Tame, Solid, AddGuard, Where,
           SpareKept, AllSpare, Empties, HalfPoint;
      ghost var a, t0, t := log.secs, log.trace, info.sec;
      QuiescentRests(a);
      QuiescentGuarded();
      log.Facts();
      FoundRecord(kv, p, key);
      AtParts(a, p, Write, key);
      FoundStored(a, key, p);
      WhereIs(a, p, key);
      ChosenStore(a, log.flash.secSize, oldest, Size(key, value), t);
      ChosenLeaves(a, log.flash.secSize, oldest, Size(key, value), t);
      AllRightIsExcept(kvCache, a, NameCrc(key));
      DelKv(key, kv, false, p, Write);
      ghost var v, t1 := log.secs, log.trace;
      PrepareStarted(t0, t1, a, p, key);
      SameIsOldOrNew(t1, |t0|, a, key, Some(value));
      SetOldRests(a, p, t, key, value);
      DeletedParts(a, p, PreDelete, t);
      DeletedLagAt(a, p, PreDelete, t);
      RoomStays(a, log.flash.secSize, p, info, Size(key, value));
      ghost var safe := Tame(a, key, value) && Solid(key, ValueAt(a, p));
      if safe {
        HalvedGuard(t0, t1, a, p, key, t, value);
      }
      err := CreateKv(info, key, value);
      ghost var w, t2 := log.secs, log.trace;
      OldThen(t1, t2, |t0|, a, v, key, Some(value));
      ExtendsTrans(t0, t1, t2);
      AtIs(w, p, PreDelete, key);
      AllRightIsExcept(kvCache, w, NameCrc(key));
      DelKv(key, kv, true, p, PreDelete);
      FinishReplace(t2, log.trace, w, p, key);
      ReplaceSpare(t0, t1, t2, log.trace, a, p, t, key, value);
      LandedAfter(a, v, w, key, Some(value));
      NewThen(t2, log.trace, |t0|, a, w, key, Some(value));
      ExtendsTrans(t0, t2, log.trace);
      if safe {
        AppendedMarks(v, t, key, value);
        RestartChain(t1, t2, |t0|, false);
        DeleteRestarts(t2, log.trace, w, p, Deleted, key, PreDelete);
        RestartChain(t2, log.trace, |t0|, false);
      }
    }

    /**
      `set_kv`. Without a value the key is deleted. Otherwise room is made first, so that a full
      store is reported before anything changes; then the new record is written between the two
      steps of deleting the old one.
    */
    method SetKv(key: Key, value: Option<Value>) returns (err: Error)
      requires Steady() && NoClash(log.secs, key) && |key| != NAME_MAX
      requires value.Some? ==> Layable(log.secs, log.flash.secSize, oldest, key, value.value)
      requires value.Some? && CollectionDue(log.secs, log.flash.secSize, Size(key, value.value)) ==> Movable(log.secs)
      modifies this`lastIsCompleteDel, this`kvCache, this`gcRequest, this`oldest, log`secs, log`trace, log`cache,
               log.flash
      ensures Steady() && LagKept(old(log.secs), log.secs) && old(oldest) < |old(log.secs)|
      ensures forall k :: Stored(log.secs, k) == if err == NoErr && k == key then value else Stored(old(log.secs), k)
      ensures Moment(log.secs, oldest)
           == if value.Some? then AfterPut(Moment(old(log.secs), old(oldest)), log.flash.secSize, key, value.value)
              else AfterDel(Moment(old(log.secs), old(oldest)), key)
      ensures err == SavedFull <==>
                value.Some? && Refused(old(log.secs), log.flash.secSize, old(oldest), Size(key, value.value))
      ensures err == SavedFull ==> NoChoice(log.secs, log.flash.secSize, Size(key, value.value), false)
      ensures value.Some? && |key| < NAME_MAX &&
              AnyTakes(old(log.secs), log.flash.secSize, Size(key, value.value), false, Using) ==>
                err == NoErr && oldest == old(oldest) &&
                LandsIn(old(log.secs), oldest, log.flash.secSize, Using, key, value.value, log.secs)
      ensures err == KvNameErr <==>
                if value.None? then Stored(old(log.secs), key) == None else err != SavedFull && |key| > NAME_MAX
      ensures Extends(old(log.trace), log.trace) && AllOldOrNew(log.trace, |old(log.trace)|, old(log.secs), key, value)
      ensures (value.Some? ==> Tame(old(log.secs), key, value.value)) && OldSolid(old(log.secs), key, value)
              ==> AllRestart(log.trace, |old(log.trace)|, value.Some? &&
                  CollectionDue(old(log.secs), log.flash.secSize, Size(key, value.value)))
      ensures err == NoErr && value.Some? && Stored(old(log.secs), key).Some? &&
              !CollectionDue(old(log.secs), log.flash.secSize, Size(key, value.value)) ==>
                HalfPoint(log.trace, |old(log.trace)|, old(log.secs), key)
      ensures !(value.Some? && CollectionDue(old(log.secs), log.flash.secSize, Size(key, value.value))) ==>
                SetSpares(log.trace, |old(log.trace)|, old(log.secs), key, value)
    {
      hide KvLog.Log.Valid, AllRight, Sane, At, Lookup, NameCrc, AllEven, FirmValue, Landed, Quiescent, RoomAt, Chosen,
           NoChoice, Reports, AllSame, AllOldOrNew, SameMap, NoClash, Stored, RecShape, Misled, Comparable, AllRestart,
           Guarded, OnlyMarks, Tame, Solid, LagKept, CollectionDue, Movable, RoomMade, Written, Where, Even,
           AllSpare, Empties, HalfPoint, AnyTakes, LandsIn, CollectedOnce, AfterPut, Refused;
      if value.None? {
        err := DelKey(key);
        return;
      }
      ghost var base, t0, due := log.secs, log.trace,
          CollectionDue(log.secs, log.flash.secSize, Size(key, value.value));
      var r := NewKv(KV_HDR + |key| + |value.value|);
      ghost var a, t1 := log.secs, log.trace;
      PutEnds(Moment(base, old(oldest)), log.flash.secSize, key, value.value, a, oldest,
              if r.Some? then r.value.sec else 0);
      RestsMap(base, a);
      SameIsOldOrNew(t1, |t0|, base, key, value);
      if r.None? {
        if !due {
          ExtendsSelf(t1);
          RefusedSpare(t0, t1, base, key, value);
        }
        return SavedFull;
      }
      NoClashSame(base, a, key);
      var f;
      ghost var p;
      QuiescentRests(a);
      QuiescentGuarded();
      Findable(key);
      f, p := FindKv(key, -1);
      ghost var t2 := log.trace;
      AllSameChain(t1, t2, |t0|, base, a);
      ExtendsTrans(t0, t1, t2);
      SameIsOldOrNew(t2, |t0|, base, key, value);
      MarksRestart(t2, |t1|, a);
      RestartWeaken(t2, |t1|, due);
      RestartChain(t1, t2, |t0|, due);
      ChosenStore(a, log.flash.secSize, oldest, Size(key, value.value), r.value.sec);
      RoomEven(base, a, r.value.sec, key, value.value);
      if Tame(base, key, value.value) {
        TameKept(base, a, key, value.value);
      }
      if f.Some? {
        FoundStored(a, key, p);
        err := Replace(r.value, key, value.value, f.value, p);
        if !due {
          SetSpare(t0, t1, t2, log.trace, base, {p}, |Empties(base)| - 2);
          HalfPointEarlier(log.trace, |t2|, |t0|, base, key);
        }
      } else {
        err := StoreNew(r.value, key, value.value);
        if !due {
          SetSpare(t0, t1, t2, log.trace, base, {}, |Empties(base)| - 1);
        }
      }
      LagKeptTrans(base, a, log.secs);
      OldThen(t2, log.trace, |t0|, base, a, key, value);
      ExtendsTrans(t0, t2, log.trace);
      if (Tame(base, key, value.value)) && OldSolid(base, key, value) {
        RestartWeaken(log.trace, |t2|, due);
        RestartChain(t2, log.trace, |t0|, due);
      }
      // update_sec_status never fills a sector, so no collection is pending here
      if gcRequest {
        assert false;
      }
    }

    // ----- recovery at boot -----

    /** What recovery works on: sound headers, no collection under way, an empty sector in reserve. */
    ghost predicate Recovering()
      reads this, log, log.flash
    {
      && Ready() && Sane(log.secs) && Booting(log.secs) && Empties(log.secs) != {} && Placeable(log.secs)
      && AllRight(kvCache, log.secs) && inRecovery && !gcRequest && !lastIsCompleteDel
    }

    /** What recovery leaves when it runs out of room at `p`; the allocator has asked for a collection. */
    ghost predicate Stuck(p: Pos)
      reads this, log, log.flash
    {
      && Ready() && Sane(log.secs) && Booting(log.secs) && |Empties(log.secs)| == 1 && Placeable(log.secs)
      && AllRight(kvCache, log.secs) && inRecovery && gcRequest && !lastIsCompleteDel
      && FirstStuck(log.secs, log.flash.secSize, oldest, p)
    }

    /**
      `check_and_recovery_kv_cb` on one record: copy it anew if it was half-deleted, mark it if it
      was cut short, which ends the pass, and otherwise remember where a live one is.
    */
    method RecoverOne(sec: nat, off: nat, ghost j: nat) returns (out: Pass, kv: KvInfo)
      requires Recovering() && IsRec(log.secs, sec, j) && log.secs[sec].recs[j].off == off
      requires Visible(log.secs[sec].recs[j])
      requires log.secs[sec].store == Using
      modifies this`lastIsCompleteDel, this`kvCache, this`gcRequest, log`secs, log`trace, log`cache, log.flash
      ensures Ready() && Sane(log.secs) && SameMap(old(log.secs), log.secs) && Booting(log.secs)
      ensures Progress(old(log.secs), log.secs)
      ensures Extends(old(log.trace), log.trace) && AllSame(log.trace, |old(log.trace)|, old(log.secs))
      ensures Resumable(old(log.secs)) ==> AllRestart(log.trace, |old(log.trace)|, false)
      ensures SpareKept(log.trace, |old(log.trace)|, old(log.secs))
      ensures out != NoRoom ==> Recovering() && Turned(old(log.secs), log.secs, sec, j)
      ensures out == Finished ==>
                RecShape(log.secs[sec].recs[j]) && Locates(kv, sec, log.secs[sec].recs[j]) && kv.start.sec == sec
      ensures out == Interrupted ==> Pending(log.secs) < Pending(old(log.secs))
      ensures out == Interrupted ==> log.secs[sec].recs[j].status == ErrHdr
      ensures out != NoRoom ==> (out == Interrupted <==> CutShort(RecAt(old(log.secs), Pos(sec, j))))
      ensures out == NoRoom <==> Pos(sec, j) in Halves(old(log.secs))
                                 && NoChoice(old(log.secs), log.flash.secSize, RecAt(old(log.secs), Pos(sec, j)).Len(),
                                        false)
      ensures out == NoRoom ==> StuckAt(log.secs, log.flash.secSize, Pos(sec, j)) && gcRequest
      ensures out == NoRoom ==> |Empties(log.secs)| == 1
      ensures out == NoRoom ==>
                MarkedFrom(old(log.secs), log.secs) && AllRight(kvCache, log.secs) && !lastIsCompleteDel
      ensures AtRest(old(log.secs)[sec].recs[j]) ==> log.secs == old(log.secs)
    {
      hide CutShort, KvLog.Log.Valid, At, NameCrc, AllRight, RightExcept, Sane, SameMap, AllSame, RecShape, Reports,
           MarkedFrom, NoGc, Booting, Turned, Empties, MarkRec, Pending, Locates, Settles, HeadersKept, SectorShape,
           Settled, Exact, Shaped, PointsAt, NoChoice, AtRest, SameRecords, Updated, Progress, Resumable, AllRestart,
           Guarded, Halves, StuckAt, Placeable, AllEven, Solid, Tame, SpareKept;
      ghost var a, t0, p, size := log.secs, log.trace, Pos(sec, j), log.flash.secSize;
      log.Facts();
      ShapedShape(a, size, sec, j);
      WalkStep(sec, j);
      kv := log.ReadRecord(sec, off, j);
      ghost var m, t1 := log.secs, log.trace;
      log.Facts();
      ReadTrace(t0, t1, a, m);
      ReadProgress(t0, t1, a, m);
      MarkedTable(kvCache, a, m, 0);
      OnceMarked(a, sec, j);
      RestRead(a, m, sec, j);
      BootRead(kv, m, sec, j);
      HalfRead(kv, a, m, sec, j);
      MarkNotCut(a, sec, j);
      if kv.crcOk && kv.status == PreDelete {
        HalfSolid(m, p, kv.name);
        StuckMarked(a, m, size, p, kv.name);
        if Resumable(m) {
          ResumableAt(m, p, kv.name);
        }
        var ok;
        ghost var t;
        ok, t := MoveKv(kv, p, PreDelete);
        ReadSpare(t0, t1, log.trace, a, m);
        AllSameChain(t1, log.trace, |t0|, a, m);
        ExtendsTrans(t0, t1, log.trace);
        SameMapTrans(a, m, log.secs);
        if Resumable(a) {
          RestartChain(t1, log.trace, |t0|, false);
        }
        if !ok {
          MoveFailed(a, m, log.secs, size, p, kv.name);
          return NoRoom, kv;
        }
        BootingKept(m, log.secs);
        ProgressMoved(m, log.secs, p, kv.name);
        ProgressTrans(a, m, log.secs);
        ProgressFit(m, log.secs);
        TurnedMoved(a, m, log.secs, sec, j, kv);
      } else if kv.status == PreWrite {
        CutParts(m, sec, j);
        log.MarkError(sec, off, j);
        ErrorSame(m, sec, j);
        SameRecordsSameMap(m, log.secs);
        SameMapTrans(a, m, log.secs);
        AllSameOne(t1, log.trace, |t0|, a, log.secs);
        ExtendsTrans(t0, t1, log.trace);
        TurnedError(a, m, sec, j);
        ErrorHeaders(m, sec, j);
        BootingKept(m, log.secs);
        ErrorTable(kvCache, m, sec, j);
        ProgressError(m, sec, j);
        ProgressTrans(a, m, log.secs);
        ProgressFit(m, log.secs);
        ErrorSpare(t1, log.trace, m, sec, j);
        ReadSpare(t0, t1, log.trace, a, m);
        if Resumable(a) {
          ErrorRestarts(t1, log.trace, |t0|, m, sec, j);
        }
        return Interrupted, kv;
      } else {
        if kv.crcOk && kv.status == Write {
          AllRightIsExcept(kvCache, m, NameCrc(kv.name));
          RightSize(kvCache, m, NameCrc(kv.name));
          FoundPoints(kv, p, kv.name);
          ghost var was := kvCache;
          UpdateKvCache(kv.name, Some(kv.start));
          UpdateRights(was, kvCache, m, NameCrc(kv.name), Some(kv.start));
        }
        TurnedMarked(a, m, sec, j);
        KeptNone(t1, m);
        ReadSpare(t0, t1, t1, a, m);
      }
      out := Finished;
    }

    /** The pass over the records of one sector. */
    method RecoverSector(sec: nat, ghost base: View, ghost t0: seq<View>) returns (out: Pass, ghost j: nat)
      requires Recovering() && sec < |log.secs| && log.secs[sec].store == Using && oldest < |base| == |log.secs|
      requires Sweep(base, log.secs, oldest, Dist(oldest, |base|, sec), 0) && SameMap(base, log.secs)
      requires Progress(base, log.secs)
      requires NoneCut(base, oldest, Dist(oldest, |base|, sec), 0)
      requires StillTo(base, log.secs, log.flash.secSize, oldest, Dist(oldest, |base|, sec))
      requires Extends(t0, log.trace) && AllSame(log.trace, |t0|, base) && Pending(log.secs) <= Pending(base)
      requires (Resumable(base) ==> AllRestart(log.trace, |t0|, false)) && SpareKept(log.trace, |t0|, base)
      modifies this`lastIsCompleteDel, this`kvCache, this`gcRequest, log`secs, log`trace, log`cache, log.flash
      ensures Ready() && Sane(log.secs) && SameMap(base, log.secs) && Extends(t0, log.trace)
      ensures AllSame(log.trace, |t0|, base)
      ensures Booting(log.secs) && Progress(base, log.secs) && (Resumable(base) ==> AllRestart(log.trace, |t0|, false))
      ensures SpareKept(log.trace, |t0|, base)
      ensures out != NoRoom ==> Recovering() && Pending(log.secs) <= Pending(base)
      ensures out == NoRoom ==> FirstStuck(log.secs, log.flash.secSize, oldest, Pos(sec, j)) && gcRequest
      ensures out == NoRoom ==> Grown(base, log.secs)
      ensures out == NoRoom ==> AllRight(kvCache, log.secs) && !lastIsCompleteDel && |Empties(log.secs)| == 1
      ensures out == NoRoom ==> OnlyAt(base, log.secs, log.flash.secSize, oldest, Pos(sec, j))
      ensures out == Interrupted ==> NeverStuck(base, log.flash.secSize, oldest)
      ensures out == Finished ==> |log.secs| == |base|
      ensures out == Finished ==> StillTo(base, log.secs, log.flash.secSize, oldest, Dist(oldest, |base|, sec) + 1)
      ensures out == Finished ==> Sweep(base, log.secs, oldest, Dist(oldest, |base|, sec) + 1, 0)
      ensures out == Finished ==> NoneCut(base, oldest, Dist(oldest, |base|, sec) + 1, 0)
      ensures out == Interrupted ==>
                Sweep(base, log.secs, oldest, Dist(oldest, |base|, sec), j + 1) && Pending(log.secs) < Pending(base)
      ensures out == Interrupted ==> IsRec(base, sec, j) && CutShort(RecAt(base, Pos(sec, j))) && AnyCut(base)
    {
      hide CutShort, NoneCut, AnyCut, KvLog.Log.Valid, AllRight, Sane, SameMap, AllSame, RecShape, Booting, Empties,
           Dist, Dealt, HeadersKept, ReserveKept, Pending, Locates, SectorShape, Settled, Exact, Shaped, Sweep,
           NextVisible, Progress, Resumable, AllRestart, StuckAt, Placeable, Halves, NoChoice, StillAt, StillTo,
           FirstStuck, MarkedFrom, AtRest, SpareKept, Grown, Extends, Unique, NoGc, OnlyAt, NeverStuck;
      ghost var size := log.flash.secSize;
      WalkStart(sec);
      StillStarts(base, log.secs, size, oldest, sec);
      var off := SECTOR_HDR;
      j := 0;
      while true
        invariant Recovering() && oldest == old(oldest) && |log.secs| == |base| && sec < |base|
        invariant log.secs[sec].store == Using
        invariant IsRec(log.secs, sec, j) && log.secs[sec].recs[j].off == off && Visible(log.secs[sec].recs[j])
        invariant Sweep(base, log.secs, oldest, Dist(oldest, |base|, sec), j) && SameMap(base, log.secs)
        invariant Progress(base, log.secs)
        invariant NoneCut(base, oldest, Dist(oldest, |base|, sec), j)
        invariant StillAt(base, log.secs, size, oldest, sec, j)
        invariant Extends(t0, log.trace) && AllSame(log.trace, |t0|, base) && Pending(log.secs) <= Pending(base)
        invariant (Resumable(base) ==> AllRestart(log.trace, |t0|, false)) && SpareKept(log.trace, |t0|, base)
        decreases Pending(log.secs), |log.secs[sec].recs| - j
      {
        ghost var v, t1 := log.secs, log.trace;
        ExtendsLength(t0, t1);
        var kv;
        out, kv := RecoverOne(sec, off, j);
        PassStep(t0, t1, log.trace, base, v, log.secs);
        if out == NoRoom {
          StuckSweep(base, v, log.secs, size, oldest, sec, j);
          return;
        }
        SweepStep(base, v, log.secs, oldest, Pos(sec, j));
        if out == Interrupted {
          StoppedAtCut(base, v, oldest, Pos(sec, j));
          CutNotStuck(base, v, size, oldest, sec, j);
          return;
        }
        StillStep(base, v, log.secs, size, oldest, sec, j);
        NoneCutStep(base, v, oldest, Pos(sec, j));
        var next := log.GetNextKv(Using, kv, j);
        NoneCutSkips(base, log.secs, oldest, sec, j + 1, NextVisible(log.secs[sec].recs, j));
        SweepSkips(base, log.secs, oldest, sec, j + 1, NextVisible(log.secs[sec].recs, j));
        StillSkips(base, log.secs, size, oldest, sec, j + 1, NextVisible(log.secs[sec].recs, j));
        if next.None? {
          break;
        }
        j, off := NextVisible(log.secs[sec].recs, j), next.value;
      }
      GrownBySweep(base, log.secs, oldest, Dist(oldest, |base|, sec), |log.secs[sec].recs|, sec);
      NoneCutNext(base, log.secs, oldest, sec);
      SweepNext(base, log.secs, oldest, sec);
      StillNext(base, log.secs, size, oldest, sec);
      out := Finished;
    }

    /**
      `kv_iterator` with that callback: one recovery pass. It ends at the first record that was cut
      short, in the sector it is in; what lies behind stays for the next boot.
    */
    method RecoverPass() returns (out: Pass, ghost at: Pos)
      requires Recovering()
      modifies this`lastIsCompleteDel, this`kvCache, this`gcRequest, log`secs, log`trace, log`cache, log.flash
      ensures Ready() && Sane(log.secs) && SameMap(old(log.secs), log.secs) && Booting(log.secs)
      ensures Progress(old(log.secs), log.secs)
      ensures Extends(old(log.trace), log.trace) && AllSame(log.trace, |old(log.trace)|, old(log.secs))
      ensures Resumable(old(log.secs)) ==> AllRestart(log.trace, |old(log.trace)|, false)
      ensures SpareKept(log.trace, |old(log.trace)|, old(log.secs))
      ensures out != NoRoom ==> Recovering()
      ensures out == NoRoom ==> Stuck(at)
      ensures Grown(old(log.secs), log.secs)
      ensures forall q :: FirstStuck(old(log.secs), log.flash.secSize, oldest, q) ==>
                out == NoRoom && at == q && MarkedFrom(old(log.secs), log.secs)
      ensures out == Finished && Resting(old(log.secs), -1) ==> log.secs == old(log.secs)
      ensures out == Finished ==> Resting(log.secs, -1) && !AnyCut(old(log.secs))
      ensures out == Interrupted ==>
                IsRec(old(log.secs), at.sec, at.idx) && CutShort(RecAt(old(log.secs), at)) && AnyCut(old(log.secs))
      ensures out == Interrupted ==> at.sec < |log.secs| && Pending(log.secs) < Pending(old(log.secs))
      ensures out == Interrupted ==>
                Sweep(old(log.secs), log.secs, oldest, Dist(oldest, |log.secs|, at.sec), at.idx + 1)
    {
      hide CutShort, NoneCut, AnyCut, KvLog.Log.Valid, AllRight, Sane, SameMap, AllSame, RecShape, Booting, Empties,
           Dist, Pending, SectorShape, Settled, Exact, Shaped, Sweep, JustOpened, Resting, Progress, Resumable,
           AllRestart, StuckAt, Placeable, FirstStuck, StillTo, MarkedFrom, SpareKept, Grown;
      ghost var base, t0 := log.secs, log.trace;
      var sec, k, num := oldest, 0, log.flash.secNum;
      at := Pos(0, 0);
      SameMapSelf(base);
      AllSameNone(t0, base);
      ExtendsSelf(t0);
      RestartNone(t0);
      KeptNone(t0, base);
      ProgressSelf(base);
      DistStart(oldest, num);
      SweepStarts(base, oldest);
      StillBegins(base, log.flash.secSize, oldest);
      NoneCutStarts(base, oldest);
      while k < num
        invariant Recovering() && oldest == old(oldest) && |base| == num && k <= num && sec < num
        invariant (k < num ==> Dist(oldest, num, sec) == k)
        invariant Sweep(base, log.secs, oldest, k, 0) && NoneCut(base, oldest, k, 0) && SameMap(base, log.secs)
        invariant StillTo(base, log.secs, log.flash.secSize, oldest, k)
        invariant Progress(base, log.secs)
        invariant Extends(t0, log.trace) && AllSame(log.trace, |t0|, base) && Pending(log.secs) <= Pending(base)
        invariant (Resumable(base) ==> AllRestart(log.trace, |t0|, false)) && SpareKept(log.trace, |t0|, base)
      {
        DistNext(oldest, num, sec);
        ghost var v, t1 := log.secs, log.trace;
        var info := log.ReadSectorInfo(sec, false);
        assert log.secs == v && log.trace == t1;
        log.Facts();
        InfoParts(info, v, log.flash.secSize);
        StoreNotFull(v, log.flash.secSize, sec);
        if info.checkOk && (info.store == Using || info.store == Full) {
          ghost var j;
          out, j := RecoverSector(sec, base, t0);
          at := Pos(sec, j);
          if out != Finished {
            ProgressFit(base, log.secs);
            if out == Interrupted {
              SweepGrows(base, log.secs, oldest, Dist(oldest, num, sec), j + 1);
            }
            return;
          }
        } else {
          NoRecords(v, log.flash.secSize, sec);
          GrownBySweep(base, v, oldest, k, 0, sec);
          NoneCutNext(base, v, oldest, sec);
          SweepNext(base, v, oldest, sec);
          StillStarts(base, v, log.flash.secSize, oldest, sec);
          StillNext(base, v, log.flash.secSize, oldest, sec);
        }
        sec, k := NextSector(num, sec), k + 1;
      }
      SweepGrows(base, log.secs, oldest, num, 0);
      StillDone(base, log.secs, log.flash.secSize, oldest);
      SweepDone(base, log.secs, oldest);
      NoneCutDone(base, oldest);
      out := Finished;
    }

    /** `check_sec_hdr_cb` over all sectors: one whose header fails the check, whatever it holds, is formatted. */
    method CheckHeaders() returns (failed: nat)
      requires Ready() && Sane(log.secs) && AllRight(kvCache, log.secs)
      modifies log`secs, log`trace, log`cache, log.flash
      ensures Ready() && Sane(log.secs) && SameMap(old(log.secs), log.secs) && AllRight(kvCache, log.secs)
      ensures Progress(old(log.secs), log.secs)
      ensures FormattedUpTo(old(log.secs), log.secs, oldest, |log.secs|) && Pending(log.secs) == Pending(old(log.secs))
      ensures Extends(old(log.trace), log.trace) && AllSame(log.trace, |old(log.trace)|, old(log.secs))
      ensures Bootable(old(log.secs)) && HalfFirm(old(log.secs)) ==> AllRestart(log.trace, |old(log.trace)|, false)
      ensures SpareKept(log.trace, |old(log.trace)|, old(log.secs))
      ensures failed == |WithStore(old(log.secs), StoreUnused)|
      ensures SoundKept(log.trace, |old(log.trace)|, old(log.secs)) && SoundAsBefore(old(log.secs), log.secs)
      ensures KnownKept(old(log.flash.mem), old(log.secs), log.secs)
    {
      hide KvLog.Log.Valid, AllRight, Sane, SameMap, AllSame, Dist, Pending, SectorShape, Settled, Exact, Shaped,
           JustOpened, FormattedUpTo, Seen, WithStore, Progress, AllRestart, HalfFirm, Bootable, SpareKept, KnownKept,
           Extends, SoundKept, SoundAsBefore, Faithful;
      ghost var a, t0 := log.secs, log.trace;
      var sec, k, num := oldest, 0, log.flash.secNum;
      FaithfulShaped();
      failed := 0;
      log.Facts();
      SameMapSelf(a);
      AllSameNone(t0, a);
      ExtendsSelf(t0);
      RestartNone(t0);
      KeptNone(t0, a);
      SoundNone(t0, a);
      ProgressSelf(a);
      DistStart(oldest, num);
      SeenEnds(a, oldest, StoreUnused);
      FormattedNone(a, oldest);
      while k < num
        invariant Ready() && Sane(log.secs) && SameMap(a, log.secs) && AllRight(kvCache, log.secs)
        invariant (Bootable(a) ==> Bootable(log.secs))
        invariant |a| == num && k <= num && sec < num && (k < num ==> Dist(oldest, num, sec) == k)
        invariant FormattedUpTo(a, log.secs, oldest, k) && Pending(log.secs) == Pending(a) && Progress(a, log.secs)
        invariant Extends(t0, log.trace) && AllSame(log.trace, |t0|, a)
        invariant (Bootable(a) && HalfFirm(a) ==> AllRestart(log.trace, |t0|, false)) && SpareKept(log.trace, |t0|, a)
        invariant failed == |Seen(a, oldest, k, StoreUnused)|
        invariant SoundKept(log.trace, |t0|, a) && SoundAsBefore(a, log.secs)
      {
        DistNext(oldest, num, sec);
        SeenStep(a, oldest, sec, StoreUnused);
        ghost var v, t1 := log.secs, log.trace;
        ExtendsLength(t0, t1);
        FormattedStep(a, v, oldest, sec);
        var info := log.ReadSectorInfo(sec, false);
        assert log.secs == v && log.trace == t1;
        log.Facts();
        InfoParts(info, v, log.flash.secSize);
        if !info.checkOk {
          ErasedIs(v, log.flash.secSize, sec);
          failed := failed + 1;
          log.FormatSector(sec);
          SoundFormat(t1, log.trace, |t0|, a, v, sec);
          HeaderFormatted(t0, t1, log.trace, a, v, log.flash.secSize, sec);
          CollectedTable(kvCache, v, sec, EMPTY_SECTOR);
        }
        sec, k := NextSector(num, sec), k + 1;
      }
      KnownStays(old(log.flash.mem), a, log.secs, log.secs, log.flash.secSize);
    }

    /** `fdb_kv_set_default` without a table of defaults: whatever the sectors held, they are formatted. */
    method SetDefault()
      requires Ready()
      modifies this`kvCache, this`oldest, log`secs, log`trace, log`cache, log.flash
      ensures Ready() && (forall i :: 0 <= i < |log.secs| ==> log.secs[i] == EMPTY_SECTOR)
      ensures AllRight(kvCache, log.secs) && oldest == 0
      ensures |log.secs| == |old(log.secs)|
      ensures Extends(old(log.trace), log.trace) && AllWiped(log.trace, |old(log.trace)|, old(log.secs))
    {
      hide KvLog.Log.Valid, SectorShape, Settled, Exact, Shaped;
      ghost var a, t0 := log.secs, log.trace;
      ExtendsSelf(t0);
      kvCache := seq(CACHE_SIZE, _ => Node(0, 0, None));
      var i := 0;
      while i < log.flash.secNum
        invariant Ready() && |log.secs| == |a| && Wiped(a, log.secs) && Extends(t0, log.trace)
        invariant AllWiped(log.trace, |t0|, a)
        invariant forall j :: 0 <= j < i && j < |log.secs| ==> log.secs[j] == EMPTY_SECTOR
        invariant |kvCache| == CACHE_SIZE && forall j :: 0 <= j < |kvCache| ==> kvCache[j].addr.None?
      {
        ghost var v, t1 := log.secs, log.trace;
        log.FormatSector(i);
        WipedMore(t1, log.trace, |t0|, a, v, i);
        assert log.trace[..|t1|] == t1;
        ExtendsTrans(t0, t1, log.trace);
        i := i + 1;
      }
      NoEntriesRight(kvCache, log.secs);
      oldest := 0;
    }

    /** The first part of a boot: faulty sectors are formatted, and all of them anew if no header is sound. */
    method CheckAll()
      requires Ready() && Sane(log.secs) && Bootable(log.secs) && Placeable(log.secs)
      requires AllRight(kvCache, log.secs) && !gcRequest && !lastIsCompleteDel
      modifies this`kvCache, this`oldest, this`inRecovery, log`secs, log`trace, log`cache, log.flash
      ensures Recovering() && |log.secs| == |old(log.secs)|
      ensures SameMap(old(log.secs), log.secs) && Progress(old(log.secs), log.secs)
      ensures Extends(old(log.trace), log.trace) && AllSame(log.trace, |old(log.trace)|, old(log.secs))
      ensures Resumable(old(log.secs)) ==> AllRestart(log.trace, |old(log.trace)|, false)
      ensures SpareKept(log.trace, |old(log.trace)|, old(log.secs))
      ensures AnyCut(log.secs) <==> AnyCut(old(log.secs))
      ensures AnyCut(log.secs) ==> oldest == old(oldest) && FormattedUpTo(old(log.secs), log.secs, oldest, |log.secs|)
      ensures Pending(log.secs) <= Pending(old(log.secs))
      ensures AllUnused(old(log.secs)) ==> AllEmpty(log.secs) && oldest == 0
      ensures AllSound(old(log.secs)) ==> log.secs == old(log.secs) && oldest == old(oldest)
      ensures SoundKept(log.trace, |old(log.trace)|, old(log.secs)) && SoundAsBefore(old(log.secs), log.secs)
    {
      hide SoundKept, SoundAsBefore, AllSound, AnyCut, KvLog.Log.Valid, AllRight, Sane, SameMap, AllSame, RecShape,
           Booting, Bootable, Empties, Dist, Pending, SectorShape, Settled, Exact, Shaped, WithStore, FormattedUpTo,
           Progress, Resumable, AllRestart, Placeable, HalfFirm, AllUnused, SpareKept;
      ghost var a, t0 := log.secs, log.trace;
      inRecovery := true;
      log.Facts();
      var failed := CheckHeaders();
      ghost var b, t1 := log.secs, log.trace;
      log.Facts();
      FormattedCut(a, b, log.flash.secSize, oldest, |b|);
      FormattedBoots(a, b, log.flash.secSize, oldest);
      ProgressFit(a, b);
      UnusedFails(a, failed);
      SoundStays(a, b, oldest, failed);
      if Resumable(a) {
        ResumableFirm(a);
      }
      if failed == SecNum() {
        NoMoreErased(a, b, oldest);
        SetDefault();
        assert log.secs == b;
        AllFailed(a);
        SoundWiped(t1, log.trace, |t0|, a, b);
        WipedEmpty(log.trace, |t1|, b);
        WipedSpare(log.trace, |t1|, b);
        SpareStep(t1, log.trace, |t0|, a, b);
        AllSameChain(t1, log.trace, |t0|, a, b);
        ExtendsTrans(t0, t1, log.trace);
        if Resumable(a) {
          RestartChain(t1, log.trace, |t0|, false);
        }
        AllEmptyUncut(b);
      }
    }

    /**
      A boot: headers, then one recovery pass, up to a pass that finds no room. The code then collects
      and tries again; see `Retry`.
    */
    method Load() returns (out: Pass, ghost at: Pos)
      requires Ready() && Sane(log.secs) && Bootable(log.secs) && Placeable(log.secs)
      requires AllRight(kvCache, log.secs) && !gcRequest && !lastIsCompleteDel
      modifies this`lastIsCompleteDel, this`kvCache, this`gcRequest, this`oldest, this`inRecovery, log`secs, log`trace,
               log`cache, log.flash
      ensures Ready() && Sane(log.secs) && SameMap(old(log.secs), log.secs) && Progress(old(log.secs), log.secs)
      ensures Extends(old(log.trace), log.trace) && AllSame(log.trace, |old(log.trace)|, old(log.secs))
      ensures Resumable(old(log.secs)) ==> AllRestart(log.trace, |old(log.trace)|, false)
      ensures SpareKept(log.trace, |old(log.trace)|, old(log.secs))
      ensures out == Finished ==> Steady() && forall k :: Stored(log.secs, k) == Recovered(old(log.secs), k)
      ensures out != NoRoom ==> (out == Finished <==> !AnyCut(old(log.secs)))
      ensures out == NoRoom ==> Stuck(at) && at in Halves(old(log.secs))
      ensures AllUnused(old(log.secs)) ==> out == Finished && AllEmpty(log.secs) && oldest == 0
      ensures old(oldest) < |old(log.secs)|
      ensures AllSound(old(log.secs)) ==>
                forall q :: FirstStuck(old(log.secs), log.flash.secSize, old(oldest), q) ==>
                  out == NoRoom && Stuck(q) && MarkedFrom(old(log.secs), log.secs)
      ensures |Reserve(old(log.secs))| > |Halves(old(log.secs))| ==> out != NoRoom
      ensures KnownGrown(old(log.flash.mem), old(log.secs), log.secs)
      ensures out == Interrupted ==>
                Bootable(log.secs) && Placeable(log.secs) && AllRight(kvCache, log.secs) && !gcRequest &&
                !lastIsCompleteDel
      ensures out == Interrupted ==> Pending(log.secs) < Pending(old(log.secs))
      ensures out == Interrupted ==> IsRec(old(log.secs), at.sec, at.idx) && CutShort(RecAt(old(log.secs), at))
      ensures out == Interrupted ==> oldest == old(oldest) < |old(log.secs)|
      ensures out == Interrupted ==>
                Sweep(old(log.secs), log.secs, oldest, Dist(oldest, |old(log.secs)|, at.sec), at.idx + 1)
    {
      hide AnyCut, KvLog.Log.Valid, AllRight, Sane, SameMap, AllSame, RecShape, Booting, Bootable, Empties, Dist,
           Pending, SectorShape, Settled, Exact, Shaped, Sweep, WithStore, FormattedUpTo, Progress, Resumable,
           AllRestart, StuckAt, Placeable, Reserve, Halves, CutShort, HalfFirm, FirstStuck, MarkedFrom, AllUnused,
           Resting, AllEmpty, AllSound, SpareKept, Extends, Unique, NoGc, At,
           SoundKept, SoundAsBefore, Grown, KnownGrown, KnownKept, Faithful;
      ghost var a, t0 := log.secs, log.trace;
      log.Facts();
      if AllUnused(a) {
        UnusedStart(a, log.flash.secSize);
      }
      FaithfulShaped();
      CheckAll();
      ghost var b, t2 := log.secs, log.trace;
      ExtendsLength(t0, t2);
      ProgressFit(a, b);
      if AllEmpty(b) {
        EmptyRests(b);
      }
      out, at := RecoverPass();
      KnownStays(old(log.flash.mem), a, b, log.secs, log.flash.secSize);
      PassStep(t0, t2, log.trace, a, b, log.secs);
      if out == Finished {
        Restored(a, log.secs);
      } else if out == Interrupted {
        BootingIsBootable(log.secs);
        FormattedAt(a, b, log.flash.secSize, oldest, |b|, at);
        FormattedSweep(a, b, log.secs, log.flash.secSize, oldest, Dist(oldest, |b|, at.sec), at.idx + 1, |b|);
      } else {
        log.Facts();
        FirstIsStuck(log.secs, log.flash.secSize, oldest, at);
        RoomForAll(a, log.secs, log.flash.secSize, at);
        return;
      }
      inRecovery := false;
    }

    /**
      One more turn of the retry loop in `_fdb_kv_load`, for a store without a dirty sector: the collection
      has nothing to collect, and the pass ends where the last one did.
    */
    method Retry(ghost p: Pos) returns (out: Pass)
      requires Stuck(p) && AllClean(log.secs)
      modifies this`lastIsCompleteDel, this`kvCache, this`gcRequest, this`oldest, log`secs, log`trace, log`cache,
               log.flash
      ensures Stuck(p) && AllClean(log.secs) && out == NoRoom
      ensures MarkedFrom(old(log.secs), log.secs) && oldest == old(oldest)
    {
      hide KvLog.Log.Valid, AllRight, Sane, SameMap, AllSame, Booting, Progress, Resumable, AllRestart, Placeable,
           FirstStuck, MarkedFrom, Resting, AnyCut, CutShort, Sweep, Quiescent, GcRun, LastSeen;
      ghost var a := log.secs;
      GcCollect(log.flash.secSize * SecNum());
      ghost var at;
      out, at := RecoverPass();
      MarkedHeaders(a, log.secs);
    }

    /** So it never ends: however often it is gone through, the record finds no room. */
    method Retries(n: nat, ghost p: Pos)
      requires Stuck(p) && AllClean(log.secs)
      modifies this`lastIsCompleteDel, this`kvCache, this`gcRequest, this`oldest, log`secs, log`trace, log`cache,
               log.flash
      ensures Stuck(p) && AllClean(log.secs) && MarkedFrom(old(log.secs), log.secs)
    {
      hide KvLog.Log.Valid, AllRight, Sane, Booting, Placeable, FirstStuck, MarkedFrom, AllClean, Empties;
      NothingMarked(log.secs, []);
      for i := 0 to n
        invariant Stuck(p) && AllClean(log.secs) && MarkedFrom(old(log.secs), log.secs)
      {
        ghost var v := log.secs;
        var out := Retry(p);
        MarkedFromTrans(old(log.secs), v, log.secs);
      }
    }

    /** The RAM tables after power-up. */
    method ResetTables()
      requires Ready()
      modifies this`kvCache, log`cache
      ensures Ready() && AllRight(kvCache, log.secs)
    {
      hide KvLog.Log.Core, Settled, Exact;
      kvCache := seq(CACHE_SIZE, _ => Node(0, 0, None));
      log.ResetCache();
    }

    /**
      Boots until one meets no record that was cut short. Unless room runs out the store then holds
      exactly what was recoverable at the start, and power may be cut again at any point on the way.
    */
    method Boot() returns (out: Pass)
      requires Ready() && Sane(log.secs) && Bootable(log.secs) && Placeable(log.secs) && !gcRequest
      requires !lastIsCompleteDel
      modifies this`lastIsCompleteDel, this`kvCache, this`gcRequest, this`oldest, this`inRecovery, log`secs, log`trace,
               log`cache, log.flash
      ensures Ready() && Sane(log.secs) && SameMap(old(log.secs), log.secs) && Progress(old(log.secs), log.secs)
      ensures out != Interrupted
      ensures Extends(old(log.trace), log.trace) && AllSame(log.trace, |old(log.trace)|, old(log.secs))
      ensures Resumable(old(log.secs)) ==> AllRestart(log.trace, |old(log.trace)|, false)
      ensures SpareKept(log.trace, |old(log.trace)|, old(log.secs))
      ensures out == Finished ==> Steady() && forall k :: Stored(log.secs, k) == Recovered(old(log.secs), k)
      ensures out == NoRoom ==> exists p :: p in Halves(old(log.secs)) && Stuck(p)
      ensures |Reserve(old(log.secs))| > |Halves(old(log.secs))| ==> out == Finished
      ensures AllUnused(old(log.secs)) ==> out == Finished && AllEmpty(log.secs) && oldest == 0
      ensures AllSound(old(log.secs)) ==>
                forall q :: FirstStuck(old(log.secs), log.flash.secSize, old(oldest), q) ==>
                  out == NoRoom && Stuck(q) && MarkedFrom(old(log.secs), log.secs)
    {
      hide AllSound, MarkedFrom, KvLog.Log.Valid, AllRight, Sane, SameMap, AllSame, Bootable, Pending, Quiescent,
           Recovered, Progress, Resumable, AllRestart, StuckAt, Placeable, Reserve, Halves, AnyCut, Sweep, CutShort,
           FirstStuck, Booting, AllUnused, SpareKept;
      ghost var a, t0 := log.secs, log.trace;
      SameMapSelf(a);
      AllSameNone(t0, a);
      ExtendsSelf(t0);
      RestartNone(t0);
      KeptNone(t0, a);
      ProgressSelf(a);
      out := Interrupted;
      while out == Interrupted
        invariant Ready() && Sane(log.secs) && SameMap(a, log.secs) && Progress(a, log.secs)
        invariant Extends(t0, log.trace) && AllSame(log.trace, |t0|, a)
        invariant (Resumable(a) ==> AllRestart(log.trace, |t0|, false)) && SpareKept(log.trace, |t0|, a)
        invariant out == Interrupted ==> Bootable(log.secs) && Placeable(log.secs) && !gcRequest && !lastIsCompleteDel
        invariant out == NoRoom ==> exists p :: p in Halves(a) && Stuck(p)
        invariant AllUnused(a) ==> if out == Interrupted then log.secs == a
                                   else out == Finished && AllEmpty(log.secs) && oldest == 0
        invariant AllSound(a) ==>
                    forall q :: FirstStuck(a, log.flash.secSize, old(oldest), q) ==>
                      if out == Interrupted then log.secs == a && oldest == old(oldest)
                      else out == NoRoom && Stuck(q) && MarkedFrom(a, log.secs)
        invariant out == NoRoom ==> |Reserve(a)| <= |Halves(a)|
        invariant out == Finished ==> Steady() && forall k :: Stored(log.secs, k) == Recovered(a, k)
        decreases out == Interrupted, Pending(log.secs)
      {
        ghost var b, t1 := log.secs, log.trace;
        ProgressFit(a, b);
        ResetTables();
        ghost var at;
        out, at := Load();
        PassStep(t0, t1, log.trace, a, b, log.secs);
        ProgressRoom(a, b, at);
        assert SameMap(a, b);
        RecoveredSame(a, b);
      }
    }
  }
}
