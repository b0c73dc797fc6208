/**
  Power loss. Whatever write of an operation or of a recovery it follows, the next boots bring back the
  old or the new value of the key concerned and leave the others alone.
*/
module KvPower {
  import opened Bytes
  import opened Status
  import opened NorFlash
  import opened KvLayout
  import opened KvImage
  import opened KvWalk
  import opened KvView
  import opened KvModel
  import opened KvRest
  import opened KvRoom
  import opened KvGc
  import opened KvSet
  import opened KvCrash
  import opened KvRestart
  import opened KvCollect
  import opened KvRecovery
  import opened KvSpare
  import opened NameCache
  import opened Kvdb
  import opened KvRun
  import Crc32
  import opened Ring
  import KvLog

  // ----- what power-up finds -----

  /** The view whose bytes power-up finds if the power fails after write `cut`, or after the last one. */
  ghost function ViewAt(log: KvLog.Log, cut: nat): View
    reads log
  {
    if cut < |log.trace| then log.trace[cut] else log.secs
  }

  lemma RereadHeader(s: Sector)
    ensures Reread(s).store == s.store && Reread(s).dirt == s.dirt
  {
  }

  lemma RereadBootable(v: View)
    requires Bootable(v)
    ensures Bootable(RereadAll(v))
  {
    hide Reread;
    forall i | 0 <= i < |v| ensures RereadAll(v)[i].store == v[i].store && RereadAll(v)[i].dirt == v[i].dirt {
      RereadHeader(v[i]);
    }
    var i :| 0 <= i < |v| && v[i].store in {StoreUnused, Empty};
    assert RereadAll(v)[i].store in {StoreUnused, Empty};
  }

  /** What is read afresh of a view fit for a boot is what a boot needs, with the same map. */
  lemma FoundAgain(mem: Memory, v: View, size: nat)
    requires Faithful(mem, v, size) && Restart(v) && Sane(v)
    ensures var found := RereadAll(v); Found(mem, found, size) && forall k :: Recovered(found, k) == Recovered(v, k)
  {
    hide SectorBytes, SectorShape, SectorSettled, SectorExact, Sane, SameRecords, Reread, HalfFirm, Bootable, AllEven;
    var found := RereadAll(v);
    forall i | 0 <= i < |v| ensures SectorBytes(mem[i], found[i]) && SectorShape(found[i], size) {
      assert SectorBytes(mem[i], v[i]) && SectorShape(v[i], size);
      RereadBytes(mem[i], v[i], size);
    }
    RereadRecords(v);
    SameRecordsSameMap(v, found);
    RecoveredSame(v, found);
    HalfSame(v, found);
    RereadBootable(v);
  }

  /**
    Power-up after the power failed at write `cut`: boots until none meets a record that was cut short,
    unless a sector was marked for collection.
  */
  method PowerUp(db: Kvdb, cut: nat, start: nat) returns (next: Option<Kvdb>, out: Pass)
    requires db.log.Core() && start < db.log.flash.secNum
    requires NoGc(ViewAt(db.log, cut)) ==> Restart(ViewAt(db.log, cut)) && Sane(ViewAt(db.log, cut))
    ensures next.Some? <==> NoGc(ViewAt(db.log, cut))
    ensures next.Some? ==> fresh(next.value) && fresh(next.value.log) && fresh(next.value.log.flash)
    ensures next.Some? ==> next.value.Ready() && out != Interrupted
    ensures next.Some? ==> forall k :: Recovered(next.value.log.secs, k) == Recovered(ViewAt(db.log, cut), k)
    ensures next.Some? && out == Finished ==> next.value.Steady()
    ensures next.Some? && out == Finished ==>
              forall k :: Stored(next.value.log.secs, k) == Recovered(ViewAt(db.log, cut), k)
    ensures next.Some? && out == NoRoom ==>
              exists p :: p in Halves(RereadAll(ViewAt(db.log, cut))) && next.value.Stuck(p)
    ensures var found := RereadAll(ViewAt(db.log, cut));
            next.Some? && AllSound(found) ==>
              forall q :: FirstStuck(found, db.log.flash.secSize, start, q) ==>
                out == NoRoom && next.value.Stuck(q) && MarkedFrom(found, next.value.log.secs)
    ensures next.Some? && |Reserve(RereadAll(ViewAt(db.log, cut)))| > |Halves(RereadAll(ViewAt(db.log, cut)))| ==>
              out == Finished
  {
    hide Faithful, Found, Recovered, Halves, Reserve, NoGc, Restart, Sane, Quiescent, AllRight, AllRestart,
         AllSame, Resumable, LagKept, RereadAll, FirstStuck, AllSound, MarkedFrom, Booting, Placeable, SpareKept,
         AllUnused, AllEmpty;
    ghost var v, size := ViewAt(db.log, cut), db.log.flash.secSize;
    CutContents(db.log, cut);
    var mem := if cut < |db.log.flash.hist| then db.log.flash.hist[cut] else db.log.flash.mem;
    var marked := AnyMarked(mem, v, size);
    out := Finished;
    if marked {
      return None, out;
    }
    FoundAgain(mem, v, size);
    RereadLength(v);
    var d;
    d, out := Reboot(mem, db.log.flash.secSize, db.log.flash.secNum, start, RereadAll(v));
    next := Some(d);
  }

  lemma RereadLength(v: View)
    ensures |RereadAll(v)| == |v|
  {
  }

  lemma CutContents(log: KvLog.Log, cut: nat)
    requires log.Core()
    ensures |log.trace| == |log.flash.hist| && log.flash.secNum >= 2 && SECTOR_HDR <= log.flash.secSize < U32_LIMIT
    ensures var mem := if cut < |log.flash.hist| then log.flash.hist[cut] else log.flash.mem; var v := ViewAt(log, cut);
            Faithful(mem, v, log.flash.secSize) && |mem| == |v|
    ensures |ViewAt(log, cut)| == log.flash.secNum
    ensures var mem := if cut < |log.flash.hist| then log.flash.hist[cut] else log.flash.mem;
            forall i :: 0 <= i < |mem| ==> |mem[i]| == log.flash.secSize
  {
    hide SectorBytes, Shaped;
    var mem, v := if cut < |log.flash.hist| then log.flash.hist[cut] else log.flash.mem, ViewAt(log, cut);
    assert Faithful(mem, v, log.flash.secSize);
  }

  /** Whether a sector header says that a collection was under way. */
  method AnyMarked(mem: Memory, ghost v: View, ghost size: nat) returns (marked: bool)
    requires Faithful(mem, v, size)
    ensures marked <==> !NoGc(v)
  {
    hide Faithful, Decode, FromU32;
    FaithfulLength(mem, v, size);
    var i := 0;
    while i < |mem|
      invariant 0 <= i <= |mem| && forall j :: 0 <= j < i ==> v[j].dirt != Gc
    {
      HeaderDecodes(mem, v, size, i);
      BlankUnmarked(mem, v, size, i);
      var b := mem[i];
      if SoundHeader(b) {
        var d := GetStatus(b[1..2], SECTOR_STATUS_NUM);
        if DirtOf(d) == Gc {
          return true;
        }
      }
      i := i + 1;
    }
    marked := false;
  }

  lemma FaithfulLength(mem: Memory, v: View, size: nat)
    requires Faithful(mem, v, size)
    ensures |mem| == |v|
  {
  }

  lemma BlankUnmarked(mem: Memory, v: View, size: nat, i: nat)
    requires Faithful(mem, v, size) && i < |v|
    ensures v[i].store == StoreUnused ==> v[i].dirt == DirtUnused
  {
    hide SectorBytes;
    assert SectorShape(v[i], size);
  }

  // ----- power loss during an operation -----

  /** The view power-up finds lies between old and new, and a boot can go on from it. */
  lemma CutDuring(log: KvLog.Log, from: nat, cut: nat, base: View, key: Key, now: Option<Value>, gc: bool)
    requires from <= cut && AllOldOrNew(log.trace, from, base, key, now) && AllRestart(log.trace, from, gc)
    requires Guarded(log.secs) && NoGc(log.secs) && OldOrNew(log.secs, base, key, now)
    ensures var v := ViewAt(log, cut); OldOrNew(v, base, key, now) && Sane(v) && if NoGc(v) then Restart(v) else gc
  {
    hide Guarded, NoGc, Restart, Sane, Recovered;
    GuardedRestarts(log.secs);
  }

  /** After the operation the store holds the old or the new value. */
  lemma AfterSet(a: View, b: View, key: Key, now: Option<Value>, done: bool)
    requires Quiescent(a) && Quiescent(b)
    requires forall k :: Stored(b, k) == if done && k == key then now else Stored(a, k)
    ensures OldOrNew(b, a, key, now)
  {
    hide Lookup, Empties, Stored, Recovered;
    QuiescentRests(a);
    QuiescentRests(b);
    forall k ensures Recovered(a, k) == Stored(a, k) && Recovered(b, k) == Stored(b, k) {}
  }

  lemma OldOrNewStored(v: View, a: View, key: Key, now: Option<Value>)
    requires Quiescent(a) && OldOrNew(v, a, key, now)
    ensures (forall k :: k != key ==> Recovered(v, k) == Stored(a, k)) && Recovered(v, key) in {Stored(a, key), now}
  {
    hide Lookup, Empties, Stored, Recovered, Sane;
    QuiescentRests(a);
    forall k ensures Recovered(a, k) == Stored(a, k) {}
  }

  /**
    A set or delete, the power cut after any write of it or behind the last one, and the boots that
    follow. Unless a collection is due, every write is covered; with one, every write between which no
    sector is marked for collection.
  */
  method SetThenCut(db: Kvdb, key: Key, value: Option<Value>, cut: nat, start: nat)
    returns (next: Option<Kvdb>, out: Pass)
    requires db.Steady() && NoClash(db.log.secs, key) && |key| != NAME_MAX
    requires value.Some? ==> Layable(db.log.secs, db.log.flash.secSize, db.oldest, key, value.value)
    requires value.Some? && CollectionDue(db.log.secs, db.log.flash.secSize, Size(key, value.value)) ==>
               Movable(db.log.secs)
    requires (value.Some? ==> Tame(db.log.secs, key, value.value)) && OldSolid(db.log.secs, key, value)
    requires |db.log.flash.hist| <= cut && start < db.log.flash.secNum
    modifies db`lastIsCompleteDel, db`kvCache, db`gcRequest, db`oldest, db.log`secs, db.log`trace, db.log`cache,
             db.log.flash
    ensures next.Some? <==> NoGc(ViewAt(db.log, cut))
    ensures !(value.Some? && CollectionDue(old(db.log.secs), db.log.flash.secSize, Size(key, value.value))) ==>
              next.Some?
    ensures next.Some? ==>
              fresh(next.value) && fresh(next.value.log) && fresh(next.value.log.flash) && out != Interrupted
    ensures next.Some? && out == Finished ==> next.value.Steady()
    ensures next.Some? && out == Finished ==>
              forall k :: k != key ==> Stored(next.value.log.secs, k) == Stored(old(db.log.secs), k)
    ensures next.Some? && out == Finished ==> Stored(next.value.log.secs, key) in {Stored(old(db.log.secs), key), value}
    ensures next.Some? && out == NoRoom ==>
              forall k :: k != key ==> Recovered(next.value.log.secs, k) == Stored(old(db.log.secs), k)
    ensures next.Some? && out == NoRoom ==>
              Recovered(next.value.log.secs, key) in {Stored(old(db.log.secs), key), value}
    ensures next.Some? && out == NoRoom ==>
              exists p :: p in Halves(RereadAll(ViewAt(db.log, cut))) && next.value.Stuck(p)
    ensures !(value.Some? && CollectionDue(old(db.log.secs), db.log.flash.secSize, Size(key, value.value))) &&
            (value.None? || Stored(old(db.log.secs), key).None? || |Empties(old(db.log.secs))| >= 3) ==>
              out == Finished
    ensures var found := RereadAll(ViewAt(db.log, cut));
            next.Some? && AllSound(found) ==>
              forall q :: FirstStuck(found, db.log.flash.secSize, start, q) ==>
                out == NoRoom && next.value.Stuck(q) && MarkedFrom(found, next.value.log.secs)
    ensures value.Some? && Stored(old(db.log.secs), key).Some? && |key| < NAME_MAX &&
            old(db.oldest) < |old(db.log.secs)| &&
            !CollectionDue(old(db.log.secs), db.log.flash.secSize, Size(key, value.value)) &&
            !Refused(old(db.log.secs), db.log.flash.secSize, old(db.oldest), Size(key, value.value)) ==>
              HalfPoint(db.log.trace, |old(db.log.flash.hist)|, old(db.log.secs), key)
  {
    hide KvLog.Log.Core, CacheOk, Settled, Exact, AllRight, NameCrc, Stored, NoClash, AllEven, LagKept, FirmValue,
         Storable, NoChoice, AllOldOrNew, AllSame, Extends, Movable, CollectionDue, Refused, AllRestart, Tame, OldSolid,
         Quiescent, Guarded, NoGc, Restart, Sane, Halves, Reserve, Recovered, OldOrNew, Layable, FirstStuck, AllSound,
         MarkedFrom, Booting, Placeable, SetSpares, RereadAll, Empties, Bootable, HalfPoint;
    ghost var a, t0 := db.log.secs, db.log.trace;
    ghost var due := value.Some? && CollectionDue(a, db.log.flash.secSize, Size(key, value.value));
    SameLengths(db.log);
    var err := db.SetKv(key, value);
    db.QuiescentGuarded();
    AfterSet(a, db.log.secs, key, value, err == NoErr);
    CutDuring(db.log, |t0|, cut, a, key, value, due);
    OldOrNewStored(ViewAt(db.log, cut), a, key, value);
    RestartBoots(ViewAt(db.log, cut));
    if cut >= |db.log.trace| {
      GuardedRestarts(db.log.secs);
      RestRoom(db.log.secs);
    } else if !due && (value.None? || Stored(a, key).None? || |Empties(a)| >= 3) {
      SetRoom(db.log.trace, |t0|, a, key, value, cut);
    }
    next, out := PowerUp(db, cut, start);
  }

  lemma RestartBoots(v: View)
    requires NoGc(v) ==> Restart(v)
    ensures NoGc(v) ==> Bootable(v)
  {
    hide NoGc, Bootable, HalfFirm;
  }

  lemma SameLengths(log: KvLog.Log)
    requires log.Core()
    ensures |log.trace| == |log.flash.hist|
  {
    hide Faithful;
  }

  // ----- power loss during recovery -----

  /**
    Power-up, the power cut again after any write of the recovery, if there are that many, and the boots
    that follow.
  */
  method CutDuringBoot(mem: Memory, secSize: nat, secNum: nat, start: nat, cut: nat, ghost found: View)
    returns (next: Kvdb, out: Pass)
    requires |mem| == secNum == |found| && secNum >= 2 && start < secNum && SECTOR_HDR <= secSize < U32_LIMIT
    requires (forall i :: 0 <= i < secNum ==> |mem[i]| == secSize) && Found(mem, found, secSize) && Resumable(found)
    ensures fresh(next) && next.Ready() && out != Interrupted
    ensures forall k :: Recovered(next.log.secs, k) == Recovered(found, k)
    ensures out == Finished ==> next.Steady() && forall k :: Stored(next.log.secs, k) == Recovered(found, k)
    ensures |Reserve(found)| > |Halves(found)| + 1 ==> out == Finished
    ensures out == NoRoom ==> exists p :: p in Halves(found) && next.Stuck(p)
  {
    hide KvLog.Log.Core, CacheOk, Settled, Exact, AllRight, Found, Recovered, AllRestart, AllSame, Restart, Sane, NoGc,
         Halves, Reserve, Resumable, LagKept, Quiescent, FirstStuck, AllSound, MarkedFrom, Booting, Placeable,
         SpareKept, RereadAll, AllUnused, AllEmpty;
    var db;
    db, out := Reboot(mem, secSize, secNum, start, found);
    if cut >= |db.log.flash.hist| {
      return db, out;
    }
    SameLengths(db.log);
    CutIsSame(db.log, cut, found);
    KeptRoom(db.log.trace, found, cut);
    var d;
    d, out := PowerUp(db, cut, start);
    next := d.value;
  }

  lemma CutIsSame(log: KvLog.Log, cut: nat, found: View)
    requires cut < |log.trace| && AllSame(log.trace, 0, found) && AllRestart(log.trace, 0, false)
    ensures var v := ViewAt(log, cut);
            NoGc(v) && Restart(v) && Sane(v) && forall k :: Recovered(v, k) == Recovered(found, k)
  {
    hide NoGc, Restart, Sane, Recovered;
    assert Sane(log.trace[cut]) && SameMap(found, log.trace[cut]);
    RecoveredSame(found, log.trace[cut]);
  }

  // ----- what the first boot can miss -----

  const HALF_KEY: Key := [121]
  const HALF_VALUE: Value := [2]
  const HALF_RECORD: Rec := Rec(SECTOR_HDR, PreDelete, HALF_KEY, HALF_VALUE, 26)

  /** A record that was cut short, and behind it, in the next sector, a half-deleted one. */
  function HalfDone(r: Rec): View {
    [Sector(Using, Clean, [r]), Sector(Using, Dirty, [HALF_RECORD]), EMPTY_SECTOR, EMPTY_SECTOR]
  }

  ghost predicate CutFirst(r: Rec, size: nat) {
    RecShape(r) && Harmless(r) && CutShort(r) && r.off == SECTOR_HDR && r.short == 0 &&
    r.End() + REMAIN_THRESHOLD < size
  }

  const NEW_VALUE: Value := [3]

  /** A new value for the same key whose writing stopped behind the header. */
  const HEADER_ONLY: Rec := Rec(SECTOR_HDR, PreWrite, HALF_KEY, NEW_VALUE, KV_HDR)

  lemma HeadFeeds()
    ensures Crc32.Feed(0xFFFFFFFF, 1) == 0x5AFA20E4
    ensures Crc32.Feed(0x5AFA20E4, 255) == 0x8A3F33CC
    ensures Crc32.Feed(0x8A3F33CC, 255) == 0xBF5A5E25
    ensures Crc32.Feed(0xBF5A5E25, 255) == 0x66B96194
  {
  }

  lemma MiddleFeeds()
    ensures Crc32.Feed(0x66B96194, 1) == 0x8003DEAA
    ensures Crc32.Feed(0x8003DEAA, 0) == 0x36834928
    ensures Crc32.Feed(0x36834928, 0) == 0x35832BB3
  {
  }

  lemma LastFeeds()
    ensures Crc32.Feed(0x35832BB3, 0) == 0x525D611D
    ensures Crc32.Feed(0x525D611D, 121) == 0x4A8DF820
    ensures Crc32.Feed(0x4A8DF820, 3) == 0xA22DFC8A
    ensures Crc32.Flip(0) == 0xFFFFFFFF && Crc32.Flip(0xA22DFC8A) == 0x5DD20375
  {
  }

  lemma NewValueCrc()
    ensures RecCrc(HALF_KEY, NEW_VALUE) == 0x5DD20375
  {
    hide Crc32.Feed, Crc32.Flip;
    HeadFeeds();
    MiddleFeeds();
    LastFeeds();
    var s := CrcHead(HALF_KEY, NEW_VALUE) + HALF_KEY + NEW_VALUE;
    assert s == [1, 255, 255, 255, 1, 0, 0, 0, 121, 3];
    Crc32.FoldNext(Crc32.Feed, 0xFFFFFFFF, s, 0);
    Crc32.FoldNext(Crc32.Feed, 0xFFFFFFFF, s, 1);
    Crc32.FoldNext(Crc32.Feed, 0xFFFFFFFF, s, 2);
    Crc32.FoldNext(Crc32.Feed, 0xFFFFFFFF, s, 3);
    Crc32.FoldNext(Crc32.Feed, 0xFFFFFFFF, s, 4);
    Crc32.FoldNext(Crc32.Feed, 0xFFFFFFFF, s, 5);
    Crc32.FoldNext(Crc32.Feed, 0xFFFFFFFF, s, 6);
    Crc32.FoldNext(Crc32.Feed, 0xFFFFFFFF, s, 7);
    Crc32.FoldNext(Crc32.Feed, 0xFFFFFFFF, s, 8);
    Crc32.FoldNext(Crc32.Feed, 0xFFFFFFFF, s, 9);
    assert s[..10] == s && s[..0] == [];
  }

  lemma NewValueWords()
    ensures U32(26)[0] == 26 && U32(RecCrc(HALF_KEY, NEW_VALUE))[0] == 0x75
    ensures CrcHead(HALF_KEY, NEW_VALUE) == [1, 255, 255, 255, 1, 0, 0, 0]
  {
    NewValueCrc();
  }

  /** However much of it was written, it holds no magic word. */
  lemma NewValueQuiet(r: Rec)
    requires RecShape(r) && r.key == HALF_KEY && r.value == NEW_VALUE && r.written >= KV_HDR && r.short == 0
    ensures Quiet(r)
  {
    hide Image, RecCrc, Crc32.Crc, U32;
    var b := Image(r);
    ImageFields(r);
    NewValueWords();
    assert |b| == 26;
    forall q | 5 <= q ensures !MagicAt(b, q) {
      if q <= 8 {
        assert b[8] == b[8..12][0] == 26;
      } else if q <= 12 {
        assert b[12] == b[12..16][0] == 0x75;
      }
      assert b[16] == b[16..24][0] == 1 && b[17] == b[16..24][1] == ERASED;
      assert b[20] == b[16..24][4] == 1 && b[21] == b[16..24][5] == 0;
      assert b[23] == b[16..24][7] == 0;
    }
  }

  lemma NewValueTame()
    ensures NoMagicIn(HALF_KEY, NEW_VALUE)
  {
    hide Quiet, Image, RecCrc;
    forall r: Rec | RecShape(r) && r.key == HALF_KEY && r.value == NEW_VALUE && r.status == PreWrite &&
      r.written >= KV_HDR && r.short == 0 ensures Quiet(r) {
      NewValueQuiet(r);
    }
  }

  lemma HeaderOnlyCutFirst(size: nat)
    requires size > 200
    ensures CutFirst(HEADER_ONLY, size)
  {
    hide Image, RecCrc, Crc32.Crc;
    NewValueQuiet(HEADER_ONLY);
  }

  lemma HalfDoneFits(r: Rec, size: nat)
    requires CutFirst(r, size)
    ensures var v := HalfDone(r);
            Settled(v) && Exact(v) && AllEven(v) && Bootable(v) && v[0].store == Using && IsRec(v, 0, 0) &&
            RecAt(v, Pos(0, 0)) == r
  {
    hide Image, SectorSettled, SectorExact, Lag;
    var v := HalfDone(r);
    EmptyFits();
    OneRecord(Using, Clean, r);
    HalfRecord();
    OneRecord(Using, Dirty, HALF_RECORD);
    forall i | 0 <= i < |v| ensures SectorSettled(v[i]) && SectorExact(v[i]) && Lag(v[i]) == 0 {}
    assert v[2].store == Empty;
  }

  lemma HalfRecord()
    ensures var h := HALF_RECORD; RecShape(h) && Harmless(h) && h.Complete() && h.Len() == h.Stated() == 26
    ensures HALF_RECORD.off == SECTOR_HDR && HALF_RECORD.End() == 42
  {
  }

  lemma OneRecord(store: Store, dirt: Dirt, r: Rec)
    requires RecShape(r) && Harmless(r) && r.off == SECTOR_HDR && r.Len() == r.Stated() && r.written >= KV_HDR
    ensures var s := Sector(store, dirt, [r]); SectorSettled(s) && SectorExact(s) && Lag(s) == 0
  {
    hide Harmless, RecShape, LastFirm;
    var s := Sector(store, dirt, [r]);
    assert VisibleLen(s.recs, 0) == 0 && VisibleLen(s.recs, 1) == r.Stated();
  }

  /** One half-deleted record and nothing live. */
  lemma HalfDoneMap(r: Rec, size: nat)
    requires CutFirst(r, size)
    ensures var v := HalfDone(r);
            && Sane(v) && Halves(v) == {Pos(1, 0)} && Reserve(v) == {2, 3} && AnyCut(v)
            && At(v, Pos(1, 0), PreDelete, HALF_KEY) && ValueAt(v, Pos(1, 0)) == HALF_VALUE
            && Stored(v, HALF_KEY) == None
            && forall q: Pos :: IsRec(v, q.sec, q.idx) && CutShort(RecAt(v, q)) ==> q == Pos(0, 0)
  {
    hide Harmless, RecShape;
    var v := HalfDone(r);
    forall p, st, k | At(v, p, st, k) && st in {Write, PreDelete} ensures p == Pos(1, 0) && st == PreDelete {
      assert IsRec(v, p.sec, p.idx) ==> p in {Pos(0, 0), Pos(1, 0)};
    }
    LookupNone(v, Write, HALF_KEY);
    forall p ensures p in Halves(v) <==> p == Pos(1, 0) {
      HalvesIs(v, p);
    }
    assert CutShort(RecAt(v, Pos(0, 0)));
  }

  /** The flash contents with a record at the start of each of the first two sectors. */
  function TwoRecords(r: Rec, h: Rec, size: nat): (m: Memory)
    requires RecShape(r) && RecShape(h) && r.off == h.off == SECTOR_HDR && r.End() < size && h.End() < size
    ensures |m| == 4
  {
    hide OneBytes, EmptyBytes;
    [OneBytes(Clean, r, size), OneBytes(Dirty, h, size), EmptyBytes(size), EmptyBytes(size)]
  }

  lemma HalfDoneFaithful(r: Rec, size: nat)
    requires CutFirst(r, size) && size > 200
    ensures RecShape(HALF_RECORD) && HALF_RECORD.off == SECTOR_HDR && HALF_RECORD.End() < size
    ensures Faithful(TwoRecords(r, HALF_RECORD, size), HalfDone(r), size)
  {
    hide SectorBytes, OneBytes, EmptyBytes, Harmless, RecShape;
    HalfRecord();
    var m, v := TwoRecords(r, HALF_RECORD, size), HalfDone(r);
    OneHolds(Clean, r, size);
    OneHolds(Dirty, HALF_RECORD, size);
    EmptyHolds(size);
    OneShape(Clean, r, size);
    OneShape(Dirty, HALF_RECORD, size);
    forall i | 0 <= i < 4 ensures SectorBytes(m[i], v[i]) && SectorShape(v[i], size) {}
  }

  /** The store before its boot. */
  method HalfDoneStore(secSize: nat, r: Rec) returns (db: Kvdb)
    requires CutFirst(r, secSize) && 200 < secSize < U32_LIMIT
    ensures fresh(db) && fresh(db.log) && fresh(db.log.flash)
    ensures db.Ready() && db.log.secs == HalfDone(r) && db.oldest == 0 && db.log.flash.secSize == secSize
    ensures AllRight(db.kvCache, db.log.secs) && !db.gcRequest && !db.lastIsCompleteDel
    ensures Shaped(db.log.secs, secSize)
  {
    hide Faithful, CutFirst, HalfDone, Settled, Exact, AllRight, TwoRecords, RecShape, InfoOk;
    HalfDoneFits(r, secSize);
    HalfDoneFaithful(r, secSize);
    HalfDoneSize(r);
    CutFirstShape(r, secSize);
    var mem := TwoRecords(r, HALF_RECORD, secSize);
    assert Sized(mem, secSize) by { FaithfulSized(mem, HalfDone(r), secSize); }
    var flash := new Flash(secSize, 4, mem);
    var log := new KvLog.Log(flash, HalfDone(r));
    db := new Kvdb(log, 0);
    log.Facts();
  }

  lemma FaithfulSized(mem: Memory, v: View, size: nat)
    requires Faithful(mem, v, size)
    ensures Sized(mem, size)
  {
  }

  lemma CutFirstShape(r: Rec, size: nat)
    requires CutFirst(r, size)
    ensures RecShape(r) && r.off == SECTOR_HDR && r.End() < size
  {
  }

  /**
    The first boot of such a store is interrupted: the half-deleted key is not found although its value
    is still there to be recovered.
  */
  method MissedBehind(secSize: nat, r: Rec) returns (db: Kvdb)
    requires CutFirst(r, secSize) && 200 < secSize < U32_LIMIT
    ensures db.Ready() && Stored(db.log.secs, HALF_KEY) == None && Recovered(db.log.secs, HALF_KEY) == Some(HALF_VALUE)
  {
    hide Faithful, CutFirst, HalfDone, Settled, Exact, AllEven, Bootable, Sane, Halves, Reserve, AnyCut, At, ValueAt,
         Lookup, CutShort, Sweep, AllRight, AllSame, SameMap, AllRestart, Resumable, StuckAt, LagKept, HalfShrinks,
         SlackKept, Quiescent, InfoOk, HalfFirm, Shaped, RecShape;
    HalfDoneFits(r, secSize);
    HalfDoneMap(r, secSize);
    HalfDoneSize(r);
    db := HalfDoneStore(secSize, r);
    ghost var a := db.log.secs;
    ShapedShape(a, secSize, 1, 0);
    var out;
    ghost var at;
    out, at := db.Load();
    assert out == Interrupted;
    assert at == Pos(0, 0);
    LeftForNextBoot(a, db.log.secs, 0, at, Pos(1, 0), HALF_KEY);
  }

  /** Both records are those of one key, as a cut while it was being set leaves them. */
  method MissedAtFirst(secSize: nat) returns (db: Kvdb)
    requires 200 < secSize < U32_LIMIT
    ensures db.Ready() && Stored(db.log.secs, HALF_KEY) == None && Recovered(db.log.secs, HALF_KEY) == Some(HALF_VALUE)
  {
    hide CutFirst;
    HeaderOnlyCutFirst(secSize);
    db := MissedBehind(secSize, HEADER_ONLY);
  }

  lemma HalfDoneSize(r: Rec)
    ensures var v := HalfDone(r); |v| == 4 && IsRec(v, 1, 0)
  {
  }
}
