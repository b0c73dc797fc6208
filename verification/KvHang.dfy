/**
  A boot that does not end. Recovery looks for room for a half-deleted record, finds none, collects the
  dirty sectors and tries again. Between the two writes of `del_kv` the record is half-deleted and its
  sector still clean: if no other sector is dirty there is nothing to collect, now and ever after.
*/
module KvHang {
  import opened Bytes
  import opened Status
  import opened NorFlash
  import opened KvLayout
  import opened KvImage
  import opened KvWalk
  import opened KvView
  import opened KvModel
  import opened KvRest
  import opened KvRoom
  import opened KvGc
  import opened KvSet
  import opened KvCrash
  import opened KvRestart
  import opened KvCollect
  import opened KvRecovery
  import opened NameCache
  import opened Kvdb
  import opened KvPower
  import opened KvFull
  import opened Ring
  import KvLog

  // ----- a store with one record -----

  /** A record that takes more than half of a sector. */
  function Big(size: nat, st: KvStatus): Rec {
    Rec(SECTOR_HDR, st, HALF_KEY, Zeros(size / 2), 25 + size / 2)
  }

  /** It is all there is in the first of two sectors. */
  function OneBig(size: nat, st: KvStatus): (v: View)
    ensures |v| == 2
  {
    [Sector(Using, Clean, [Big(size, st)]), EMPTY_SECTOR]
  }

  lemma BigParts(size: nat, st: KvStatus)
    requires 400 < size < U32_LIMIT && st in {PreWrite, Write, PreDelete}
    ensures var r := Big(size, st);
            && RecShape(r) && Harmless(r) && r.Complete() && r.Len() == r.Stated() == 25 + size / 2 && r.short == 0
            && r.off == SECTOR_HDR && r.End() == 41 + size / 2 && r.written >= KV_HDR && r.status == st
            && r.key == HALF_KEY && r.value == Zeros(size / 2)
  {
  }

  lemma BigSector(size: nat, st: KvStatus)
    requires 400 < size < U32_LIMIT && st in {PreWrite, Write, PreDelete}
    ensures var s := Sector(Using, Clean, [Big(size, st)]);
            && SectorShape(s, size) && SectorSettled(s) && SectorExact(s) && Lag(s) == 0 && s.End() == 41 + size / 2
            && !Fits(s, size, 25 + size / 2, false) && Fits(s, size, 26, false)
  {
    hide RecShape, Harmless, Big, SectorShape, SectorSettled, SectorExact, Lag;
    BigParts(size, st);
    OneRecord(Using, Clean, Big(size, st));
    OneShape(Clean, Big(size, st), size);
  }

  /** What such a store is fit for. */
  lemma OneBigFits(size: nat, st: KvStatus)
    requires 400 < size < U32_LIMIT && st in {Write, PreDelete}
    ensures var v := OneBig(size, st);
            && Shaped(v, size) && Settled(v) && Exact(v) && AllEven(v) && AllSound(v) && AllClean(v)
            && Empties(v) == {1} && Sane(v) && At(v, Pos(0, 0), st, HALF_KEY)
            && Lookup(v, st, HALF_KEY) == Some(Zeros(size / 2))
            && (forall k :: k != HALF_KEY ==> Stored(v, k) == None)
  {
    hide RecShape, Harmless, Big, SectorShape, SectorSettled, SectorExact, Lag, Zeros;
    var v := OneBig(size, st);
    BigParts(size, st);
    BigSector(size, st);
    EmptyFits();
    assert SectorShape(EMPTY_SECTOR, size) by { EmptyShape(size); }
    forall i | 0 <= i < 2
      ensures SectorShape(v[i], size) && SectorSettled(v[i]) && SectorExact(v[i]) && Lag(v[i]) == 0 {}
    forall p, t, k | At(v, p, t, k) ensures p == Pos(0, 0) && k == HALF_KEY {
      assert IsRec(v, p.sec, p.idx) ==> p == Pos(0, 0);
    }
    LookupIs(v, st, HALF_KEY, Pos(0, 0));
    forall k | k != HALF_KEY ensures Stored(v, k) == None {
      LookupNone(v, Write, k);
    }
    assert v[1] == EMPTY_SECTOR;
  }

  lemma EmptyShape(size: nat)
    ensures SectorShape(EMPTY_SECTOR, size)
  {
  }

  lemma BigRests(size: nat)
    requires 400 < size < U32_LIMIT
    ensures var v := OneBig(size, Write);
            && Quiescent(v) && !CollectionDue(v, size, 26) && !Refused(v, size, 0, 26) && v[0].recs[0].status == Write
  {
    hide RecShape, Harmless, Lag, Zeros, Shaped, Settled, Exact, SectorShape, SectorSettled, SectorExact;
    var v := OneBig(size, Write);
    OneBigFits(size, Write);
    BigSector(size, Write);
    assert Fits(v[0], size, 26, false) && v[0].store == Using;
    forall i | 0 <= i < 2 ensures RestSector(v[i], false) {}
  }

  // ----- the set that is cut -----

  /** Half-deleted it finds no room, wherever the walk begins. */
  lemma BigIsStuck(size: nat, start: nat)
    requires 400 < size < U32_LIMIT && start < 2
    ensures var v := OneBig(size, PreDelete); FirstStuck(v, size, start, Pos(0, 0)) && RereadAll(v) == v && NoGc(v)
  {
    hide RecShape, Harmless, Lag, Zeros, Shaped, Settled, Exact, SectorShape, SectorSettled, SectorExact, Fits, Big;
    var v := OneBig(size, PreDelete);
    OneBigFits(size, PreDelete);
    BigSector(size, PreDelete);
    BigParts(size, PreDelete);
    FitRereadAll(v);
    assert |Empties(v)| == 1;
    forall i | 0 <= i < 2 && v[i].store == Using ensures !Fits(v[i], size, 25 + size / 2, false) {}
    assert NoChoice(v, size, RecAt(v, Pos(0, 0)).Len(), false);
  }

  /** The store the set begins with. */
  method BigStore(size: nat) returns (db: Kvdb)
    requires 400 < size < U32_LIMIT
    ensures fresh(db) && fresh(db.log) && fresh(db.log.flash) && db.Steady()
    ensures db.log.secs == OneBig(size, Write) && db.oldest == 0 && db.log.flash.secSize == size
    ensures db.log.flash.secNum == 2 && db.log.flash.hist == []
  {
    hide Faithful, Settled, Exact, AllRight, RecShape, InfoOk, Quiescent, OneBytes, EmptyBytes, Big, OneBig, AllEven,
         Shaped, AllSound, AllClean, Sane, At, Lookup;
    OneBigFits(size, Write);
    BigRests(size);
    BigParts(size, Write);
    var mem := [OneBytes(Clean, Big(size, Write), size), EmptyBytes(size)];
    BigBytes(size, mem);
    var flash := new Flash(size, 2, mem);
    var log := new KvLog.Log(flash, OneBig(size, Write));
    db := new Kvdb(log, 0);
  }

  lemma BigBytes(size: nat, mem: Memory)
    requires 400 < size < U32_LIMIT && RecShape(Big(size, Write)) && Big(size, Write).off == SECTOR_HDR
    requires Big(size, Write).End() < size && mem == [OneBytes(Clean, Big(size, Write), size), EmptyBytes(size)]
    ensures Faithful(mem, OneBig(size, Write), size) && forall i :: 0 <= i < 2 ==> |mem[i]| == size
  {
    hide SectorBytes, OneBytes, EmptyBytes, SectorShape, Big, RecShape;
    var v := OneBig(size, Write);
    OneBigFits(size, Write);
    OneHolds(Clean, Big(size, Write), size);
    EmptyHolds(size);
    forall i | 0 <= i < 2 ensures SectorBytes(mem[i], v[i]) && |mem[i]| == size {}
  }

  lemma BigIsFirm(size: nat)
    requires 400 < size < U32_LIMIT
    ensures Solid(HALF_KEY, Zeros(size / 2))
  {
    var k, v := HALF_KEY, Zeros(size / 2);
    BigParts(size, Write);
    assert RecBytes(k, v)[Size(k, v) - 1] == v[|v| - 1];
  }

  /** The first write of the set makes one view out of the other. */
  lemma BigHalved(size: nat)
    requires 400 < size < U32_LIMIT
    ensures Where(OneBig(size, Write), HALF_KEY) == Pos(0, 0)
    ensures Restated(OneBig(size, Write), Pos(0, 0), PreDelete) == OneBig(size, PreDelete)
  {
    hide Zeros;
    OneBigFits(size, Write);
    WhereIs(OneBig(size, Write), Pos(0, 0), HALF_KEY);
    var s := Sector(Using, Clean, [Big(size, Write)]);
    assert SetRecStatus(s, 0, PreDelete).recs == [Big(size, PreDelete)];
    assert OneBig(size, Write)[0 := Sector(Using, Clean, [Big(size, PreDelete)])] == OneBig(size, PreDelete);
  }

  lemma SoleKey(v: View)
    requires forall k :: k != HALF_KEY ==> Stored(v, k) == None
    ensures NoClash(v, HALF_KEY)
  {
    hide Stored, NameCrc;
  }

  lemma MarksStayClean(a: View, b: View)
    requires MarkedFrom(a, b) && AllClean(a)
    ensures AllClean(b)
  {
    hide MarkedFrom;
    MarkedHeaders(a, b);
  }

  /**
    A short value is set over the long one. If the power fails right behind the first write the next boot
    is stuck with no dirty sector: this is what `Retries` shows to go on for ever.
  */
  method HangsAfterCut(size: nat, cut: nat, start: nat) returns (db: Kvdb, next: Option<Kvdb>, out: Pass)
    requires 400 < size < U32_LIMIT && start < 2
    ensures exists t :: ViewAt(db.log, t) == OneBig(size, PreDelete)
    ensures ViewAt(db.log, cut) == OneBig(size, PreDelete) ==>
              next.Some? && out == NoRoom && next.value.Stuck(Pos(0, 0)) && AllClean(next.value.log.secs)
  {
    hide KvLog.Log.Valid, Quiescent, AllRight, OneBig, Shaped, Settled, Exact, AllEven, AllSound, Sane, At, Lookup,
         NoClash, CollectionDue, Refused, Movable, Tame, NoMagicIn, FirstStuck, Where, Restated, MarkedFrom, Booting,
         Placeable, RereadAll, NoGc, Solid, Zeros, AllClean;
    OneBigFits(size, Write);
    BigRests(size);
    BigHalved(size);
    BigIsFirm(size);
    BigIsStuck(size, start);
    OneBigFits(size, PreDelete);
    NewValueTame();
    EvenTame(OneBig(size, Write), HALF_KEY, NEW_VALUE);
    SoleKey(OneBig(size, Write));
    db := BigStore(size);
    next, out := SetThenCut(db, HALF_KEY, Some(NEW_VALUE), cut, start);
    ghost var t :| 0 <= t < |db.log.trace| && db.log.trace[t] == OneBig(size, PreDelete);
    assert ViewAt(db.log, t) == OneBig(size, PreDelete);
    if ViewAt(db.log, cut) == OneBig(size, PreDelete) {
      MarksStayClean(OneBig(size, PreDelete), next.value.log.secs);
    }
  }

  // ----- one sector more than half-deleted records -----

  /** The same record and two empty sectors. */
  function ToSpare(size: nat): View {
    [Sector(Using, Clean, [Big(size, PreDelete)]), EMPTY_SECTOR, EMPTY_SECTOR]
  }

  /** The copy is complete but for its last status. */
  function CopyCut(size: nat): View {
    ToSpare(size)[1 := Sector(Using, Clean, [Big(size, PreWrite)])]
  }

  /**
    One empty sector more than half-deleted records is enough for a recovery, not for one that is cut: the
    copy it leaves takes the sector, and the next boot is stuck.
  */
  lemma OneMoreIsNotEnough(size: nat)
    requires 400 < size < U32_LIMIT
    ensures var a := ToSpare(size);
            && |a| == |CopyCut(size)| == 3
            && Shaped(a, size) && Settled(a) && Exact(a) && AllEven(a) && Sane(a) && Bootable(a)
            && |Reserve(a)| == |Halves(a)| + 1
            && Stage(a[1], CopyCut(size)[1], HALF_KEY, Zeros(size / 2))
    ensures var v := CopyCut(size);
            && Settled(v) && Exact(v) && AllSound(v) && AllClean(v) && RereadAll(v) == v
            && FirstStuck(v, size, 0, Pos(0, 0))
  {
    hide RecShape, Zeros, Big, FirstStuck, RereadAll, Reserve, Halves, Bootable, Sane, ToSpare, CopyCut, Shaped,
         Settled, Exact, AllEven, AllSound, AllClean;
    ToSpareFits(size);
    CopyFits(size);
    FitRereadAll(CopyCut(size));
    SpareCounts(size);
    CopyStuck(size);
  }

  lemma ToSpareFits(size: nat)
    requires 400 < size < U32_LIMIT
    ensures var a := ToSpare(size); Shaped(a, size) && Settled(a) && Exact(a) && AllEven(a)
  {
    hide RecShape, Harmless, Lag, Zeros, SectorShape, SectorSettled, SectorExact, Big;
    var a := ToSpare(size);
    BigSector(size, PreDelete);
    EmptyFits();
    EmptyShape(size);
    forall i | 0 <= i < 3
      ensures SectorShape(a[i], size) && SectorSettled(a[i]) && SectorExact(a[i]) && Lag(a[i]) == 0 {}
  }

  lemma CopyFits(size: nat)
    requires 400 < size < U32_LIMIT
    ensures var v := CopyCut(size); Settled(v) && Exact(v) && AllSound(v) && AllClean(v)
    ensures |ToSpare(size)| == |CopyCut(size)| == 3
    ensures Stage(ToSpare(size)[1], CopyCut(size)[1], HALF_KEY, Zeros(size / 2))
  {
    hide RecShape, Harmless, Lag, Zeros, SectorSettled, SectorExact, Big;
    var v := CopyCut(size);
    BigSector(size, PreDelete);
    BigSector(size, PreWrite);
    EmptyFits();
    forall i | 0 <= i < 3 ensures SectorSettled(v[i]) && SectorExact(v[i]) {}
    BigParts(size, PreWrite);
    assert v[1] == WithRec(ToSpare(size)[1], Big(size, PreWrite));
  }

  lemma CopyStuck(size: nat)
    requires 400 < size < U32_LIMIT
    ensures FirstStuck(CopyCut(size), size, 0, Pos(0, 0))
  {
    hide RecShape, Harmless, Zeros, SectorShape, SectorSettled, SectorExact, Fits, Big;
    var v := CopyCut(size);
    BigSector(size, PreDelete);
    BigSector(size, PreWrite);
    BigParts(size, PreDelete);
    assert Empties(v) == {2} && |Empties(v)| == 1;
    forall i | 0 <= i < 3 && v[i].store == Using ensures !Fits(v[i], size, 25 + size / 2, false) {}
    assert At(v, Pos(0, 0), PreDelete, HALF_KEY);
    assert NoChoice(v, size, RecAt(v, Pos(0, 0)).Len(), false);
  }

  lemma SpareCounts(size: nat)
    requires 400 < size < U32_LIMIT
    ensures var a := ToSpare(size); Sane(a) && Bootable(a) && |Reserve(a)| == |Halves(a)| + 1
  {
    hide RecShape, Harmless, Zeros, Big;
    var a := ToSpare(size);
    BigParts(size, PreDelete);
    forall p ensures p in Halves(a) <==> p == Pos(0, 0) {
      HalvesIs(a, p);
    }
    assert Halves(a) == {Pos(0, 0)} && Reserve(a) == {1, 2};
    assert a[1] == EMPTY_SECTOR;
  }
}
