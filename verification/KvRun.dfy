/**
  Whole runs of the store: any sequence of set, delete and get behaves as on a plain map, from any
  store in use and from a new device on.
*/
module KvRun {
  import opened Bytes
  import opened NorFlash
  import opened KvLayout
  import opened KvImage
  import opened KvWalk
  import opened KvView
  import opened KvModel
  import opened KvRest
  import opened KvRoom
  import opened KvGc
  import opened KvSet
  import opened KvCrash
  import opened KvRestart
  import opened KvCollect
  import opened KvLaws
  import opened KvRecovery
  import opened KvSpare
  import opened NameCache
  import opened Kvdb
  import opened Ring
  import KvLog

  // ----- runs without power loss -----

  datatype Op = Put(key: Key, value: Value) | Del(key: Key) | Get(key: Key, bufLen: nat)

  datatype Outcome = Done(err: Error) | Got(data: seq<byte>, valueLen: nat)

  type Map = map<Key, Value>

  /**
    One operation on a plain map, and the store that holds it next; a put is refused exactly when no room
    can be made for it.
  */
  ghost predicate Step(m: Map, at: Moment, op: Op, out: Outcome, n: Map, next: Moment, size: nat) {
    match op
    case Put(k, v) =>
      && at.oldest < |at.secs| && next == AfterPut(at, size, k, v)
      && if Refused(at.secs, size, at.oldest, Size(k, v)) then out == Done(SavedFull) && n == m
         else out == Done(NoErr) && n == m[k := v]
    case Del(k) =>
      && next == AfterDel(at, k)
      && if k in m then out == Done(NoErr) && n == m - {k} else out == Done(KvNameErr) && n == m
    case Get(k, len) =>
      && n == m && next == at
      && out == if k in m then Got(m[k][..if len > |m[k]| then |m[k]| else len], |m[k]|) else Got([], 0)
  }

  /** The store holds exactly this map. */
  ghost predicate Holding(secs: View, m: Map) {
    forall k :: Stored(secs, k) == if k in m then Some(m[k]) else None
  }

  /**
    `ms` are the states of a map that takes the operations one by one with these outcomes, `ats` those of
    the store that holds it. Each follows from the one before, so the first of `ats` settles all outcomes.
  */
  ghost predicate Explains(ops: seq<Op>, outs: seq<Outcome>, ms: seq<Map>, ats: seq<Moment>, size: nat) {
    && |ms| == |ats| == |ops| + 1 && |outs| == |ops|
    && (forall i {:trigger ops[i]} :: 0 <= i < |ops| ==>
          Step(ms[i], ats[i], ops[i], outs[i], ms[i + 1], ats[i + 1], size))
    && (forall i {:trigger ms[i]} :: 0 <= i < |ms| ==> Holding(ats[i].secs, ms[i]))
  }

  ghost predicate InUse(keys: set<Key>, m: Map, ops: seq<Op>) {
    m.Keys <= keys && forall i {:trigger ops[i]} :: 0 <= i < |ops| ==> ops[i].key in keys
  }

  /** Keys of a usable length whose 16-bit CRCs tell them apart. */
  ghost predicate Distinct(keys: set<Key>) {
    && (forall k :: k in keys ==> |k| < NAME_MAX)
    && (forall k, l :: k in keys && l in keys && k != l ==> NameCrc(k) != NameCrc(l))
  }

  lemma DistinctDontClash(secs: View, m: Map, keys: set<Key>, key: Key)
    requires Holding(secs, m) && m.Keys <= keys && Distinct(keys) && key in keys
    ensures NoClash(secs, key) && |key| < NAME_MAX
  {
    hide NameCrc, Stored, NoClash;
    forall k | Stored(secs, k).Some? && k != key ensures NameCrc(k) != NameCrc(key) {
      assert k in m;
    }
    DistinctCrcsDontClash(secs, key);
  }

  lemma HoldingSame(a: View, b: View, m: Map)
    requires Holding(a, m) && forall k :: Stored(b, k) == Stored(a, k)
    ensures Holding(b, m)
  {
    hide Stored;
  }

  lemma HoldingSet(a: View, b: View, m: Map, key: Key, value: Option<Value>)
    requires Holding(a, m) && forall k :: Stored(b, k) == if k == key then value else Stored(a, k)
    ensures Holding(b, if value.Some? then m[key := value.value] else m - {key})
  {
    hide Stored;
  }

  lemma ExplainsMore(ops: seq<Op>, outs: seq<Outcome>, ms: seq<Map>, ats: seq<Moment>, size: nat, i: nat, out: Outcome,
                     m: Map, at: Moment)
    requires i < |ops| && Explains(ops[..i], outs, ms, ats, size) && Step(ms[i], ats[i], ops[i], out, m, at, size)
    requires Holding(at.secs, m)
    ensures Explains(ops[..i + 1], outs + [out], ms + [m], ats + [at], size)
  {
    hide Step, Holding;
    forall j | 0 <= j < i + 1
      ensures Step((ms + [m])[j], (ats + [at])[j], ops[..i + 1][j], (outs + [out])[j], (ms + [m])[j + 1],
                   (ats + [at])[j + 1], size)
    {
      if j < i {
        assert ops[..i][j] == ops[j];
      }
    }
  }

  /** There is only one such explanation: the store at the start settles every outcome. */
  lemma {:induction false} OneOutcome(ops: seq<Op>, size: nat, outs: seq<Outcome>, ms: seq<Map>, ats: seq<Moment>,
                                      outs2: seq<Outcome>, ms2: seq<Map>, ats2: seq<Moment>)
    requires Explains(ops, outs, ms, ats, size) && Explains(ops, outs2, ms2, ats2, size)
    requires ms[0] == ms2[0] && ats[0] == ats2[0]
    ensures outs == outs2 && ms == ms2 && ats == ats2
  {
    hide Holding, AfterPut, AfterDel, Refused;
    for i := 0 to |ops|
      invariant outs[..i] == outs2[..i] && ms[..i + 1] == ms2[..i + 1] && ats[..i + 1] == ats2[..i + 1]
    {
      assert ms[..i + 1][i] == ms2[..i + 1][i] && ats[..i + 1][i] == ats2[..i + 1][i];
      assert Step(ms[i], ats[i], ops[i], outs[i], ms[i + 1], ats[i + 1], size);
      assert Step(ms2[i], ats2[i], ops[i], outs2[i], ms2[i + 1], ats2[i + 1], size);
    }
  }

  /** A put opens an empty sector only if no sector in use takes the record. */
  lemma OpensLate(ops: seq<Op>, outs: seq<Outcome>, ms: seq<Map>, ats: seq<Moment>, size: nat, i: nat, s: nat)
    requires Explains(ops, outs, ms, ats, size) && i < |ops| && ops[i].Put? && |ops[i].key| < NAME_MAX
    requires s < |ats[i].secs| && ats[i].secs[s].store == Empty
    requires s < |ats[i + 1].secs| ==> ats[i + 1].secs[s].store != Empty
    ensures !AnyTakes(ats[i].secs, size, Size(ops[i].key, ops[i].value), false, Using)
  {
    hide Holding, AfterPut, AfterDel, Refused, AnyTakes, Nearest;
    assert Step(ms[i], ats[i], ops[i], outs[i], ms[i + 1], ats[i + 1], size);
    if AnyTakes(ats[i].secs, size, Size(ops[i].key, ops[i].value), false, Using) {
      PutLands(ats[i], size, ops[i].key, ops[i].value);
      assert false;
    }
  }

  /** No garbage is ever lost from sight: a collection can find all of it. */
  lemma {:induction false} RunMarked(ops: seq<Op>, outs: seq<Outcome>, ms: seq<Map>, ats: seq<Moment>, size: nat,
                                     i: nat)
    requires Explains(ops, outs, ms, ats, size) && i <= |ops| && GarbageMarked(ats[0].secs)
    ensures GarbageMarked(ats[i].secs)
  {
    hide Holding, AfterPut, AfterDel, Refused, GarbageMarked;
    if i > 0 {
      RunMarked(ops, outs, ms, ats, size, i - 1);
      assert Step(ms[i - 1], ats[i - 1], ops[i - 1], outs[i - 1], ms[i], ats[i], size);
      match ops[i - 1] {
        case Put(k, v) => PutMarked(ats[i - 1], size, k, v);
        case Del(k) => DelMarked(ats[i - 1], k);
        case Get(k, len) =>
      }
    }
  }

  lemma NewMarked(num: nat)
    ensures GarbageMarked(NewSectors(num))
  {
  }

  lemma EvenIsMovable(a: View)
    requires AllEven(a)
    ensures Movable(a)
  {
    hide MapFirm;
  }

  /** One operation of the run. */
  method Apply(db: Kvdb, op: Op, ghost m: Map, ghost keys: set<Key>) returns (out: Outcome, ghost n: Map)
    requires db.Steady() && AllEven(db.log.secs) && Holding(db.log.secs, m) && Distinct(keys) && m.Keys <= keys
    requires op.key in keys
    modifies db`lastIsCompleteDel, db`kvCache, db`gcRequest, db`oldest, db.log`secs, db.log`trace, db.log`cache,
             db.log.flash
    ensures db.Steady() && AllEven(db.log.secs) && Holding(db.log.secs, n) && n.Keys <= keys
    ensures Step(m, Moment(old(db.log.secs), old(db.oldest)), op, out, n, Moment(db.log.secs, db.oldest),
                 db.log.flash.secSize)
  {
    hide KvLog.Log.Valid, Quiescent, AllRight, NameCrc, Stored, NoClash, AllEven, LagKept, FirmValue, Storable,
         NoChoice, AllOldOrNew, AllSame, Extends, Distinct, Movable, CollectionDue, Refused, AllRestart, Tame, OldSolid,
         AfterPut, AfterDel;
    ghost var a := db.log.secs;
    DistinctDontClash(a, m, keys, op.key);
    EvenIsMovable(a);
    n := m;
    match op {
      case Put(k, v) =>
        var err := db.SetKv(k, Some(v));
        out := Done(err);
        EvenStays(a, db.log.secs);
        if err == NoErr {
          n := m[k := v];
          HoldingSet(a, db.log.secs, m, k, Some(v));
        } else {
          HoldingSame(a, db.log.secs, m);
        }
      case Del(k) =>
        var err := db.DelKey(k);
        out := Done(err);
        n := m - {k};
        EvenStays(a, db.log.secs);
        HoldingSet(a, db.log.secs, m, k, None);
      case Get(k, len) =>
        QuiescentUnique(a);
        db.Findable(k);
        var data, valueLen := db.GetKv(k, len);
        out := Got(data, valueLen);
    }
  }

  /** Map refinement: with any number of collections inside, a run is a run of a plain map. */
  method Run(db: Kvdb, ops: seq<Op>, ghost m: Map, ghost keys: set<Key>)
    returns (outs: seq<Outcome>, ghost ms: seq<Map>, ghost ats: seq<Moment>)
    requires db.Steady() && AllEven(db.log.secs) && Holding(db.log.secs, m) && Distinct(keys) && InUse(keys, m, ops)
    modifies db`lastIsCompleteDel, db`kvCache, db`gcRequest, db`oldest, db.log`secs, db.log`trace, db.log`cache,
             db.log.flash
    ensures db.Steady() && AllEven(db.log.secs)
    ensures Explains(ops, outs, ms, ats, db.log.flash.secSize) && ms[0] == m
    ensures ats[0] == Moment(old(db.log.secs), old(db.oldest)) && ats[|ops|] == Moment(db.log.secs, db.oldest)
    ensures Holding(db.log.secs, ms[|ops|])
  {
    hide KvLog.Log.Valid, Quiescent, AllRight, NameCrc, Stored, AllEven, Step, Distinct;
    outs, ms, ats := [], [m], [Moment(db.log.secs, db.oldest)];
    var i := 0;
    while i < |ops|
      invariant i <= |ops| && db.Steady() && AllEven(db.log.secs)
      invariant Explains(ops[..i], outs, ms, ats, db.log.flash.secSize) && ms[0] == m && ms[i].Keys <= keys
      invariant ats[i] == Moment(db.log.secs, db.oldest) && ats[0] == Moment(old(db.log.secs), old(db.oldest))
    {
      ghost var n;
      var out;
      out, n := Apply(db, ops[i], ms[i], keys);
      ExplainsMore(ops, outs, ms, ats, db.log.flash.secSize, i, out, n, Moment(db.log.secs, db.oldest));
      outs, ms, ats, i := outs + [out], ms + [n], ats + [Moment(db.log.secs, db.oldest)], i + 1;
    }
    assert ops[..|ops|] == ops;
  }

  // ----- power-up -----

  /** The flash contents spell out a view from which a boot can go on. */
  ghost predicate Found(mem: Memory, found: View, size: nat) {
    Faithful(mem, found, size) && Settled(found) && Exact(found) && Sane(found) && Bootable(found) && Placeable(found)
  }

  /** Power-up on flash contents `mem`, and boots until one meets no record that was cut short. */
  method Reboot(mem: Memory, secSize: nat, secNum: nat, start: nat, ghost found: View) returns (db: Kvdb, out: Pass)
    requires |mem| == secNum == |found| && secNum >= 2 && start < secNum && SECTOR_HDR <= secSize < U32_LIMIT
    requires (forall i :: 0 <= i < secNum ==> |mem[i]| == secSize) && Found(mem, found, secSize)
    ensures fresh(db) && fresh(db.log) && fresh(db.log.flash) && db.log.flash.secSize == secSize
    ensures db.log.flash.secNum == secNum
    ensures db.Ready() && out != Interrupted && LagKept(found, db.log.secs)
    ensures forall k :: Recovered(db.log.secs, k) == Recovered(found, k)
    ensures out == Finished ==> db.Steady() && forall k :: Stored(db.log.secs, k) == Recovered(found, k)
    ensures out == NoRoom ==> exists p :: p in Halves(found) && db.Stuck(p)
    ensures AllSound(found) ==>
              forall q :: FirstStuck(found, secSize, start, q) ==>
                out == NoRoom && db.Stuck(q) && MarkedFrom(found, db.log.secs)
    ensures AllUnused(found) ==> AllEmpty(db.log.secs) && db.oldest == 0
    ensures |Reserve(found)| > |Halves(found)| ==> out == Finished
    ensures Resumable(found) ==> AllRestart(db.log.trace, 0, false)
    ensures AllSame(db.log.trace, 0, found) && SpareKept(db.log.trace, 0, found)
  {
    hide Faithful, Settled, Exact, Sane, Bootable, Placeable, InfoOk, AllSame, Quiescent, Recovered, AllRight, LagKept,
         HalfShrinks, HalfStay, SlackKept, AllRestart, Resumable, Halves, Reserve, FirstStuck, MarkedFrom, AllSound,
         AllUnused, AllEmpty, Booting, SpareKept;
    var flash := new Flash(secSize, secNum, mem);
    var log := new KvLog.Log(flash, found);
    db := new Kvdb(log, start);
    out := db.Boot();
    RecoveredSame(found, db.log.secs);
  }

  // ----- a new device -----

  lemma BlankBoots(mem: Memory, secs: View, size: nat)
    requires |mem| == |secs| >= 2 && SECTOR_HDR <= size
    requires forall i :: 0 <= i < |secs| ==> |mem[i]| == size && !SoundHeader(mem[i]) && secs[i] == ERASED_SECTOR
    ensures Found(mem, secs, size) && AllEven(secs) && |Halves(secs)| == 0 && |Reserve(secs)| > 0 && AllUnused(secs)
    ensures forall k :: Recovered(secs, k) == None
  {
    hide SectorSettled, SectorExact, Lag, SoundHeader;
    EmptyFits();
    forall i | 0 <= i < |secs| ensures SectorBytes(mem[i], secs[i]) {}
    forall p, st, k ensures !At(secs, p, st, k) {}
    assert secs[0].store == StoreUnused && 0 in Reserve(secs);
    assert Halves(secs) == {};
  }

  /** All sectors empty. */
  ghost function NewSectors(num: nat): View {
    seq(num, _ => EMPTY_SECTOR)
  }

  /** What such a store can hold, its first record must fit a sector. */
  lemma NewTakesAll(num: nat, size: nat, need: nat)
    requires num >= 2
    ensures Refused(NewSectors(num), size, 0, need) <==> SECTOR_HDR + need + REMAIN_THRESHOLD >= size
  {
    var v := NewSectors(num);
    assert {0, 1} <= Empties(v);
    Subset({0, 1}, Empties(v));
    assert |{0, 1}| == 2;
    assert RoomMade(v, size, 0, need).secs == v;
    assert v[0] == EMPTY_SECTOR;
  }

  /** A device whose sector headers all fail the check, whatever else it holds: its first boot leaves an empty store. */
  method NewStore(mem: Memory, secSize: nat, secNum: nat) returns (db: Kvdb)
    requires |mem| == secNum >= 2 && SECTOR_HDR <= secSize < U32_LIMIT
    requires forall i :: 0 <= i < secNum ==> |mem[i]| == secSize && !SoundHeader(mem[i])
    ensures fresh(db) && fresh(db.log) && fresh(db.log.flash) && db.log.flash.secSize == secSize
    ensures db.Steady() && AllEven(db.log.secs) && forall k :: Stored(db.log.secs, k) == None
    ensures db.log.secs == NewSectors(secNum) && db.oldest == 0
  {
    hide Faithful, Found, Recovered, Halves, Reserve, AllEven, LagKept, SoundHeader, AllUnused;
    ghost var secs := seq(secNum, _ => ERASED_SECTOR);
    BlankBoots(mem, secs, secSize);
    var out;
    db, out := Reboot(mem, secSize, secNum, 0, secs);
    EvenStays(secs, db.log.secs);
    assert db.log.secs == NewSectors(secNum);
  }

  /** A run that starts on such a device is one of a map that starts empty. */
  method RunFromNew(mem: Memory, secSize: nat, secNum: nat, ops: seq<Op>, ghost keys: set<Key>)
    returns (outs: seq<Outcome>, ghost ms: seq<Map>, ghost ats: seq<Moment>)
    requires |mem| == secNum >= 2 && SECTOR_HDR <= secSize < U32_LIMIT
    requires forall i :: 0 <= i < secNum ==> |mem[i]| == secSize && !SoundHeader(mem[i])
    requires Distinct(keys) && InUse(keys, map[], ops)
    ensures Explains(ops, outs, ms, ats, secSize) && ms[0] == map[] && ats[0] == Moment(NewSectors(secNum), 0)
  {
    hide KvLog.Log.Valid, Quiescent, AllRight, NameCrc, Stored, AllEven, Explains, Distinct, SoundHeader;
    var db := NewStore(mem, secSize, secNum);
    outs, ms, ats := Run(db, ops, map[], keys);
  }
}
