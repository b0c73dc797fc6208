/**
  Resumable iteration: `fdb_kv_iterate` hands out one live record per call. `Remaining` is what is
  still to come; together the calls deliver every live record exactly once, in ring order.
*/
module KvIterate {
  import opened Bytes
  import opened NorFlash
  import opened KvLayout
  import opened KvImage
  import opened KvWalk
  import opened KvView
  import opened KvModel
  import opened KvRest
  import opened KvRoom
  import opened KvGc
  import opened Ring
  import opened KvLaws
  import opened KvRecovery
  import opened NameCache
  import opened Kvdb
  import KvLog

  ghost predicate Live(secs: View, p: Pos) {
    IsRec(secs, p.sec, p.idx) && RecAt(secs, p).Complete() && RecAt(secs, p).status == Write
  }

  /** The live records of a sector from index `j` on. */
  ghost function LiveIn(secs: View, sec: nat, j: nat): seq<Pos>
    requires sec < |secs|
    decreases |secs[sec].recs| - j
  {
    if j >= |secs[sec].recs| then []
    else (if Live(secs, Pos(sec, j)) then [Pos(sec, j)] else []) + LiveIn(secs, sec, j + 1)
  }

  /** The live records of all sectors but the first `k` of the ring. */
  ghost function LiveFrom(secs: View, oldest: nat, k: nat): seq<Pos>
    requires oldest < |secs|
    decreases |secs| - k
  {
    if k >= |secs| then [] else LiveIn(secs, SectorAfter(oldest, |secs|, k), 0) + LiveFrom(secs, oldest, k + 1)
  }

  ghost function Sizes(secs: View, ps: seq<Pos>): nat {
    if ps == [] then 0 else RecAt(secs, ps[0]).Len() + Sizes(secs, ps[1..])
  }

  ghost function ValueSizes(secs: View, ps: seq<Pos>): nat {
    if ps == [] then 0 else |ValueAt(secs, ps[0])| + ValueSizes(secs, ps[1..])
  }

  // ----- every live record, exactly once -----

  lemma {:induction false} LiveInHas(secs: View, sec: nat, j: nat, p: Pos)
    requires sec < |secs|
    ensures p in LiveIn(secs, sec, j) <==> Live(secs, p) && p.sec == sec && p.idx >= j
    decreases |secs[sec].recs| - j
  {
    if j < |secs[sec].recs| {
      LiveInHas(secs, sec, j + 1, p);
    }
  }

  lemma {:induction false} LiveFromHas(secs: View, oldest: nat, k: nat, p: Pos)
    requires oldest < |secs|
    ensures p in LiveFrom(secs, oldest, k) <==> Live(secs, p) && Dist(oldest, |secs|, p.sec) >= k
    decreases |secs| - k
  {
    hide LiveIn, SectorAfter;
    if k < |secs| {
      var sec := SectorAfter(oldest, |secs|, k);
      LiveFromHas(secs, oldest, k + 1, p);
      LiveInHas(secs, sec, 0, p);
      if p.sec < |secs| {
        SameDist(oldest, |secs|, sec, p.sec);
      }
    }
  }

  ghost predicate NoRepeats(ps: seq<Pos>) {
    forall a, b :: 0 <= a < b < |ps| ==> ps[a] != ps[b]
  }

  lemma NoRepeatsJoin(s: seq<Pos>, t: seq<Pos>)
    requires NoRepeats(s) && NoRepeats(t) && forall p :: p in s ==> p !in t
    ensures NoRepeats(s + t)
  {
    forall a, b | 0 <= a < b < |s + t| ensures (s + t)[a] != (s + t)[b] {
      if a < |s| <= b {
        assert s[a] in s && t[b - |s|] in t;
      }
    }
  }

  lemma {:induction false} LiveInOnce(secs: View, sec: nat, j: nat)
    requires sec < |secs|
    ensures NoRepeats(LiveIn(secs, sec, j))
    decreases |secs[sec].recs| - j
  {
    if j < |secs[sec].recs| {
      LiveInOnce(secs, sec, j + 1);
      LiveInHas(secs, sec, j + 1, Pos(sec, j));
      NoRepeatsJoin(if Live(secs, Pos(sec, j)) then [Pos(sec, j)] else [], LiveIn(secs, sec, j + 1));
    }
  }

  lemma {:induction false} LiveFromOnce(secs: View, oldest: nat, k: nat)
    requires oldest < |secs|
    ensures NoRepeats(LiveFrom(secs, oldest, k))
    decreases |secs| - k
  {
    if k < |secs| {
      var sec := SectorAfter(oldest, |secs|, k);
      LiveInOnce(secs, sec, 0);
      LiveFromOnce(secs, oldest, k + 1);
      forall p | p in LiveIn(secs, sec, 0) ensures p !in LiveFrom(secs, oldest, k + 1) {
        LiveInHas(secs, sec, 0, p);
        LiveFromHas(secs, oldest, k + 1, p);
      }
      NoRepeatsJoin(LiveIn(secs, sec, 0), LiveFrom(secs, oldest, k + 1));
    }
  }

  /** A whole iteration meets exactly the live records, none of them twice. */
  lemma AllLiveOnce(secs: View, oldest: nat)
    requires oldest < |secs|
    ensures NoRepeats(LiveFrom(secs, oldest, 0))
    ensures forall p :: p in LiveFrom(secs, oldest, 0) <==> Live(secs, p)
  {
    LiveFromOnce(secs, oldest, 0);
    forall p ensures p in LiveFrom(secs, oldest, 0) <==> Live(secs, p) {
      LiveFromHas(secs, oldest, 0, p);
    }
  }

  /** Sector by sector round the ring, and in each sector in the order of writing. */
  ghost predicate InOrder(num: nat, oldest: nat, ps: seq<Pos>) {
    && oldest < num && (forall i :: 0 <= i < |ps| ==> ps[i].sec < num)
    && forall i, j :: 0 <= i < j < |ps| ==>
         || Ahead(num, oldest, ps[i].sec) < Ahead(num, oldest, ps[j].sec)
         || (ps[i].sec == ps[j].sec && ps[i].idx < ps[j].idx)
  }

  /** In sector `sec`, from index `j` on, in the order of writing. */
  ghost predicate Ascends(ps: seq<Pos>, sec: nat, j: nat) {
    && (forall i :: 0 <= i < |ps| ==> ps[i].sec == sec && ps[i].idx >= j)
    && forall i, k :: 0 <= i < k < |ps| ==> ps[i].idx < ps[k].idx
  }

  lemma AscendsMore(ps: seq<Pos>, sec: nat, j: nat)
    requires Ascends(ps, sec, j + 1)
    ensures Ascends(ps, sec, j) && Ascends([Pos(sec, j)] + ps, sec, j)
  {
  }

  lemma {:induction false} LiveInAscends(secs: View, sec: nat, j: nat)
    requires sec < |secs|
    ensures Ascends(LiveIn(secs, sec, j), sec, j)
    decreases |secs[sec].recs| - j
  {
    hide Live;
    if j < |secs[sec].recs| {
      LiveInAscends(secs, sec, j + 1);
      AscendsMore(LiveIn(secs, sec, j + 1), sec, j);
      assert [] + LiveIn(secs, sec, j + 1) == LiveIn(secs, sec, j + 1);
    }
  }

  lemma LiveInOrder(secs: View, oldest: nat, sec: nat)
    requires sec < |secs| && oldest < |secs|
    ensures InOrder(|secs|, oldest, LiveIn(secs, sec, 0))
    ensures forall p :: p in LiveIn(secs, sec, 0) ==> p.sec == sec
  {
    hide LiveIn, Ahead;
    LiveInAscends(secs, sec, 0);
  }

  lemma {:induction false} LiveFromOrder(secs: View, oldest: nat, k: nat)
    requires oldest < |secs|
    ensures InOrder(|secs|, oldest, LiveFrom(secs, oldest, k))
    ensures forall p :: p in LiveFrom(secs, oldest, k) ==> p.sec < |secs| && Ahead(|secs|, oldest, p.sec) >= k
    decreases |secs| - k
  {
    hide LiveIn, Ahead;
    if k < |secs| {
      var sec := SectorAfter(oldest, |secs|, k);
      var s, t := LiveIn(secs, sec, 0), LiveFrom(secs, oldest, k + 1);
      AheadIsDist(|secs|, oldest, sec);
      LiveInOrder(secs, oldest, sec);
      LiveFromOrder(secs, oldest, k + 1);
      var all: seq<Pos> := s + t;
      forall i, j | 0 <= i < j < |all|
        ensures all[i].sec < |secs| && all[j].sec < |secs|
        ensures || Ahead(|secs|, oldest, all[i].sec) < Ahead(|secs|, oldest, all[j].sec)
                || (all[i].sec == all[j].sec && all[i].idx < all[j].idx)
      {
        if i < |s| {
          assert s[i] in s;
        }
        if j < |s| {
          assert s[j] in s;
        } else {
          assert t[j - |s|] in t;
        }
      }
    }
  }

  // ----- the walk -----

  /** Skipping what is not live leaves the list as it is. */
  lemma {:induction false} LiveInSkips(secs: View, sec: nat, j: nat, n: nat)
    requires sec < |secs| && j <= n <= |secs[sec].recs| && forall i :: j <= i < n ==> !Live(secs, Pos(sec, i))
    ensures LiveIn(secs, sec, j) == LiveIn(secs, sec, n)
    decreases n - j
  {
    if j < n {
      LiveInSkips(secs, sec, j + 1, n);
    }
  }

  lemma LiveInHead(secs: View, sec: nat, j: nat)
    requires IsRec(secs, sec, j)
    ensures LiveIn(secs, sec, j) == if Live(secs, Pos(sec, j)) then [Pos(sec, j)] + LiveIn(secs, sec, j + 1)
                else LiveIn(secs, sec, j + 1)
  {
  }

  lemma LiveInEnd(secs: View, sec: nat)
    requires sec < |secs|
    ensures LiveIn(secs, sec, |secs[sec].recs|) == []
  {
  }

  /** On to the next sector of the ring. */
  lemma LiveFromNext(secs: View, oldest: nat, k: nat)
    requires oldest < |secs| && k < |secs|
    ensures LiveFrom(secs, oldest, k) == LiveIn(secs, SectorAfter(oldest, |secs|, k), 0) + LiveFrom(secs, oldest, k + 1)
    ensures LiveFrom(secs, oldest, |secs|) == []
  {
  }

  /** What lies between record `j` and the next one read is not live. */
  lemma LiveInBetween(secs: View, size: nat, sec: nat, j: nat)
    requires Shaped(secs, size) && IsRec(secs, sec, j)
    ensures LiveIn(secs, sec, j + 1) == LiveIn(secs, sec, NextVisible(secs[sec].recs, j))
  {
    hide LiveIn, Live, NextVisible;
    ScrapsNotLive(secs, size, sec, j);
    LiveInSkips(secs, sec, j + 1, NextVisible(secs[sec].recs, j));
  }

  lemma ScrapsNotLive(secs: View, size: nat, sec: nat, j: nat)
    requires Shaped(secs, size) && IsRec(secs, sec, j)
    ensures forall i :: j < i < NextVisible(secs[sec].recs, j) ==> !Live(secs, Pos(sec, i))
  {
    forall i | j < i < NextVisible(secs[sec].recs, j) ensures !Live(secs, Pos(sec, i)) {
      ShapedShape(secs, size, sec, i);
    }
  }

  lemma ReadLive(kv: KvInfo, secs: View, sec: nat, j: nat)
    requires IsRec(secs, sec, j) && RecShape(secs[sec].recs[j]) && Reports(kv, sec, secs[sec].recs[j])
    ensures kv.status == Write && kv.crcOk <==> Live(secs, Pos(sec, j))
    ensures Live(secs, Pos(sec, j)) ==>
              kv.name == secs[sec].recs[j].key && kv.len == secs[sec].recs[j].Len() &&
              kv.valueLen == |secs[sec].recs[j].value|
    ensures Locates(kv, sec, secs[sec].recs[j]) && kv.start == Addr(sec, secs[sec].recs[j].off)
  {
    if secs[sec].recs[j].Complete() {
      CompleteIsGood(secs[sec].recs[j]);
    }
  }

  /** The record a description stands for, in a store at rest. */
  ghost predicate Describes(kv: KvInfo, secs: View, sec: nat, j: nat) {
    && IsRec(secs, sec, j) && Visible(secs[sec].recs[j]) && RecShape(secs[sec].recs[j])
    && Locates(kv, sec, secs[sec].recs[j]) && kv.start.sec == sec && secs[sec].store == Using
  }

  /**
    The inner loop of the iterator: from the start of the sector or behind record `j`, the next
    live record of the sector, if there is one.
  */
  method NextLive(db: Kvdb, sec: nat, started: bool, cur: KvInfo, ghost j: nat)
    returns (found: bool, kv: KvInfo, ghost n: nat)
    requires db.Steady() && sec < |db.log.secs| && db.log.secs[sec].store == Using
    requires started ==> Describes(cur, db.log.secs, sec, j)
    modifies db.log`secs, db.log`trace, db.log`cache, db.log.flash
    ensures db.Steady() && db.log.secs == old(db.log.secs) && db.log.trace == old(db.log.trace)
    ensures var secs := db.log.secs; var was := LiveIn(secs, sec, if started then j + 1 else 0);
            if found then
              && was == [Pos(sec, n)] + LiveIn(secs, sec, n + 1) && Live(secs, Pos(sec, n))
              && Describes(kv, secs, sec, n)
              && kv.name == secs[sec].recs[n].key && kv.len == secs[sec].recs[n].Len()
              && kv.valueLen == |secs[sec].recs[n].value|
            else was == []
  {
    hide KvLog.Log.Valid, Quiescent, AllRight, RecShape, Reports, Locates, Live, LiveIn, LiveFrom, NextVisible,
         SectorShape, Settled, Exact, MarkRec, SectorAfter, Shaped, Resting, Sane, Lookup, Empties, MarkedFrom, NoMarks;
    ghost var secs, from := db.log.secs, (if started then j + 1 else 0);
    var off: Option<nat>;
    db.log.Facts();
    QuiescentRests(secs);
    RestingNoMarks(secs, -1, db.log.flash.secSize);
    kv, n := cur, 0;
    if !started {
      db.WalkStart(sec);
      off := Some(SECTOR_HDR);
    } else {
      off := db.log.GetNextKv(Using, cur, j);
      n := NextVisible(secs[sec].recs, j);
      LiveInBetween(secs, db.log.flash.secSize, sec, j);
    }
    while off.Some?
      invariant db.Steady() && db.log.secs == secs && db.log.trace == old(db.log.trace) && n <= |secs[sec].recs|
      invariant if off.Some? then IsRec(secs, sec, n) && secs[sec].recs[n].off == off.value &&
                    Visible(secs[sec].recs[n])
                else n == |secs[sec].recs|
      invariant LiveIn(secs, sec, from) == LiveIn(secs, sec, n)
      decreases |secs[sec].recs| - n, off.Some?
    {
      db.WalkStep(sec, n);
      Unmarked(secs, MarkRec(secs, sec, n));
      kv := db.log.ReadRecord(sec, off.value, n);
      assert db.log.secs == secs;
      ReadLive(kv, secs, sec, n);
      LiveInHead(secs, sec, n);
      if kv.status == Write && kv.crcOk {
        return true, kv, n;
      }
      off := db.log.GetNextKv(Using, kv, n);
      LiveInBetween(secs, db.log.flash.secSize, sec, n);
      n := NextVisible(secs[sec].recs, n);
    }
    LiveInEnd(secs, sec);
    found := false;
  }

  /** Where an iterator stands: behind record `j` of `sector` if `started`, else at the start of it. */
  datatype Cursor = Cursor(started: bool, sector: nat, traversed: nat, j: nat, atEnd: bool)

  ghost predicate GoodCursor(c: Cursor, kv: KvInfo, secs: View, oldest: nat) {
    oldest < |secs| && (!c.atEnd ==>
      && c.traversed < |secs| && c.sector == SectorAfter(oldest, |secs|, c.traversed)
      && (c.started ==> Describes(kv, secs, c.sector, c.j)))
  }

  /** The live records further calls will deliver. */
  ghost function RemainingOf(c: Cursor, secs: View, oldest: nat): seq<Pos> {
    if c.atEnd || oldest >= |secs| || c.sector >= |secs| then []
    else if c.started then LiveIn(secs, c.sector, c.j + 1) + LiveFrom(secs, oldest, c.traversed + 1)
    else LiveFrom(secs, oldest, c.traversed)
  }

  lemma CursorBegins(kv: KvInfo, secs: View, oldest: nat)
    requires oldest < |secs|
    ensures var c := Cursor(false, oldest, 0, 0, false);
            GoodCursor(c, kv, secs, oldest) && RemainingOf(c, secs, oldest) == LiveFrom(secs, oldest, 0)
  {
  }

  lemma CursorBounds(c: Cursor, kv: KvInfo, secs: View, oldest: nat)
    requires GoodCursor(c, kv, secs, oldest)
    ensures oldest < |secs| && (c.atEnd ==> RemainingOf(c, secs, oldest) == [])
    ensures !c.atEnd ==>
              c.sector < |secs| && c.traversed < |secs| &&
              (c.started ==> Describes(kv, secs, c.sector, c.j) && secs[c.sector].store == Using)
  {
  }

  /** A live record was found in the sector: it heads the list of what remained. */
  lemma CursorFinds(c: Cursor, kv: KvInfo, secs: View, oldest: nat, n: nat, found: KvInfo)
    requires GoodCursor(c, kv, secs, oldest) && !c.atEnd && Describes(found, secs, c.sector, n)
    requires LiveIn(secs, c.sector, if c.started then c.j + 1 else 0) == [Pos(c.sector, n)]
                 + LiveIn(secs, c.sector, n + 1)
    ensures var d := Cursor(true, c.sector, c.traversed, n, false);
            GoodCursor(d, found, secs, oldest) &&
            RemainingOf(c, secs, oldest) == [Pos(c.sector, n)] + RemainingOf(d, secs, oldest)
  {
    hide LiveIn, LiveFrom, SectorAfter, Describes;
    LiveFromNext(secs, oldest, c.traversed);
    Regroup(Pos(c.sector, n), LiveIn(secs, c.sector, n + 1), LiveFrom(secs, oldest, c.traversed + 1));
  }

  /** Nothing more in the sector: on to the next, or to the end. */
  lemma CursorMoves(c: Cursor, kv: KvInfo, secs: View, oldest: nat)
    requires GoodCursor(c, kv, secs, oldest) && !c.atEnd
    requires LiveIn(secs, c.sector, if c.started then c.j + 1 else 0) == []
    ensures var d := Cursor(false, if c.traversed + 1 < |secs| then NextSector(|secs|, c.sector)
                else c.sector, c.traversed + 1, c.j, c.traversed + 1 >= |secs|);
            GoodCursor(d, kv, secs, oldest) && RemainingOf(d, secs, oldest) == RemainingOf(c, secs, oldest)
  {
    hide LiveIn, LiveFrom, SectorAfter, Describes;
    LiveFromNext(secs, oldest, c.traversed);
    if c.traversed + 1 < |secs| {
      NextAfter(oldest, |secs|, c.traversed + 1);
    }
  }

  lemma Regroup(p: Pos, s: seq<Pos>, t: seq<Pos>)
    ensures ([p] + s) + t == [p] + (s + t)
  {
  }

  lemma DescribedUsing(kv: KvInfo, secs: View, sec: nat, j: nat)
    requires Describes(kv, secs, sec, j)
    ensures IsRec(secs, sec, j) && secs[sec].store == Using
  {
  }

  lemma NothingLive(secs: View, size: nat, sec: nat)
    requires Shaped(secs, size) && sec < |secs| && secs[sec].store != Using
    ensures LiveIn(secs, sec, 0) == []
  {
    NoRecords(secs, size, sec);
  }

  /** `struct fdb_kv_iterator`; `started` says that `currKv` holds a record of the current
      sector, `atEnd` that the sector address is FAILED_ADDR. */
  class KvIterator {
    var currKv: KvInfo
    var started: bool
    var sector: nat
    var traversed: nat
    var iteratedCnt: nat
    var iteratedObjBytes: nat
    var iteratedValueBytes: nat
    ghost var j: nat
    var atEnd: bool

    /** `fdb_kv_iterator_init` */
    constructor (db: Kvdb)
      requires db.Steady()
      ensures InStep(db.log.secs, db.oldest) && Remaining(db.log.secs, db.oldest) == LiveFrom(db.log.secs, db.oldest, 0)
      ensures !atEnd && iteratedCnt == iteratedObjBytes == iteratedValueBytes == 0
    {
      hide KvLog.Log.Valid, Quiescent, AllRight, LiveIn, LiveFrom, GoodCursor, RemainingOf;
      CursorBegins(KvInfo(Unused, false, 0, [], 0, Addr(0, 0), 0), db.log.secs, db.oldest);
      currKv := KvInfo(Unused, false, 0, [], 0, Addr(0, 0), 0);
      started, sector, traversed := false, db.oldest, 0;
      iteratedCnt, iteratedObjBytes, iteratedValueBytes := 0, 0, 0;
      j, atEnd := 0, false;
    }

    ghost function At(): Cursor
      reads this
    {
      Cursor(started, sector, traversed, j, atEnd)
    }

    ghost predicate InStep(secs: View, oldest: nat)
      reads this
    {
      GoodCursor(At(), currKv, secs, oldest)
    }

    ghost function Remaining(secs: View, oldest: nat): seq<Pos>
      reads this
    {
      RemainingOf(At(), secs, oldest)
    }

    /** The counters and the record after a call that delivered one. */
    ghost predicate Delivered(secs: View, cnt: nat, objBytes: nat, valueBytes: nat)
      reads this
    {
      var r := RecAt(secs, Pos(sector, j));
      && Live(secs, Pos(sector, j)) && currKv.name == r.key && currKv.valueLen == |r.value|
      && iteratedCnt == cnt + 1 && iteratedObjBytes == objBytes + r.Len()
      && iteratedValueBytes == valueBytes + |r.value|
    }

    /** One turn of the outer loop: a record of this sector, or on to the next. */
    method IterateSector(db: Kvdb) returns (found: bool)
      requires db.Steady() && InStep(db.log.secs, db.oldest) && !atEnd
      modifies this, db.log`secs, db.log`trace, db.log`cache, db.log.flash
      ensures db.Steady() && db.log.secs == old(db.log.secs) && db.log.trace == old(db.log.trace)
      ensures InStep(db.log.secs, db.oldest)
      ensures found ==>
                old(Remaining(db.log.secs, db.oldest)) == [Pos(sector, j)] + Remaining(db.log.secs, db.oldest) && !atEnd
      ensures found ==> Delivered(db.log.secs, old(iteratedCnt), old(iteratedObjBytes), old(iteratedValueBytes))
      ensures !found ==>
                Remaining(db.log.secs, db.oldest) == old(Remaining(db.log.secs, db.oldest)) &&
                (atEnd || traversed == old(traversed) + 1)
      ensures !found ==>
                iteratedCnt == old(iteratedCnt) && iteratedObjBytes == old(iteratedObjBytes) &&
                iteratedValueBytes == old(iteratedValueBytes)
    {
      hide KvLog.Log.Valid, Quiescent, AllRight, Describes, Live, LiveIn, LiveFrom, GoodCursor, RemainingOf, Dist,
           SectorAfter, IsRec, Reports, RecShape;
      ghost var secs, c := db.log.secs, At();
      CursorBounds(c, currKv, secs, db.oldest);
      var kv;
      ghost var n;
      found, kv, n := FindInSector(db);
      if found {
        CursorFinds(c, currKv, secs, db.oldest, n, kv);
        DescribedAt(kv, secs, sector, n);
        currKv, j, started := kv, n, true;
        iteratedCnt, iteratedObjBytes, iteratedValueBytes := iteratedCnt + 1, iteratedObjBytes + kv.len,
            iteratedValueBytes + kv.valueLen;
        return;
      }
      CursorMoves(c, currKv, secs, db.oldest);
      started, traversed := false, traversed + 1;
      if traversed + 1 <= db.log.flash.secNum {
        sector := NextSector(db.log.flash.secNum, sector);
      } else {
        atEnd := true;
      }
    }

    /** The next live record of the current sector, if any. */
    method FindInSector(db: Kvdb) returns (found: bool, kv: KvInfo, ghost n: nat)
      requires db.Steady() && sector < |db.log.secs| && (started ==> Describes(currKv, db.log.secs, sector, j))
      modifies db.log`secs, db.log`trace, db.log`cache, db.log.flash
      ensures db.Steady() && db.log.secs == old(db.log.secs) && db.log.trace == old(db.log.trace)
      ensures found ==> Describes(kv, db.log.secs, sector, n) && IsRec(db.log.secs, sector, n)
      ensures found ==> var r := db.log.secs[sector].recs[n];
                Live(db.log.secs, Pos(sector, n)) && kv.name == r.key && kv.len == r.Len() && kv.valueLen == |r.value|
      ensures LiveIn(db.log.secs, sector, if started then j + 1 else 0)
           == if found then [Pos(sector, n)] + LiveIn(db.log.secs, sector, n + 1) else []
    {
      hide KvLog.Log.Valid, Quiescent, AllRight, Describes, Live, LiveIn, LiveFrom, SectorShape, Settled, Exact, Shaped,
           JustOpened, DirtAgrees, Empties, InfoOk, Dist, SectorAfter, IsRec, Reports, RecShape, MarkRec;
      ghost var secs := db.log.secs;
      kv, n, found := currKv, 0, false;
      if started {
        DescribedUsing(currKv, secs, sector, j);
      }
      var info := db.log.ReadSectorInfo(sector, false);
      db.log.Facts();
      InfoParts(info, secs, db.log.flash.secSize);
      StoreNotFull(secs, db.log.flash.secSize, sector);
      if info.checkOk && (info.store == Using || info.store == Full) {
        found, kv, n := NextLive(db, sector, started, currKv, j);
        if found {
          DescribedUsing(kv, secs, sector, n);
        }
      } else {
        NothingLive(secs, db.log.flash.secSize, sector);
      }
    }

    /** `fdb_kv_iterate` */
    method Iterate(db: Kvdb) returns (more: bool)
      requires db.Steady() && InStep(db.log.secs, db.oldest) && !atEnd
      modifies this, db.log`secs, db.log`trace, db.log`cache, db.log.flash
      ensures db.Steady() && db.log.secs == old(db.log.secs) && db.log.trace == old(db.log.trace)
      ensures InStep(db.log.secs, db.oldest)
      ensures more ==>
                old(Remaining(db.log.secs, db.oldest)) == [Pos(sector, j)] + Remaining(db.log.secs, db.oldest) && !atEnd
      ensures more ==> Delivered(db.log.secs, old(iteratedCnt), old(iteratedObjBytes), old(iteratedValueBytes))
      ensures !more ==> old(Remaining(db.log.secs, db.oldest)) == [] && atEnd
      ensures !more ==>
                iteratedCnt == old(iteratedCnt) && iteratedObjBytes == old(iteratedObjBytes) &&
                iteratedValueBytes == old(iteratedValueBytes)
    {
      hide KvLog.Log.Valid, Quiescent, AllRight, Live, Delivered, GoodCursor, RemainingOf;
      CursorBounds(At(), currKv, db.log.secs, db.oldest);
      more := false;
      while !more && !atEnd
        invariant db.Steady() && db.log.secs == old(db.log.secs) && db.log.trace == old(db.log.trace)
        invariant InStep(db.log.secs, db.oldest)
        invariant more ==>
                    old(Remaining(db.log.secs, db.oldest)) == [Pos(sector, j)] + Remaining(db.log.secs, db.oldest) &&
                    !atEnd
        invariant more ==> Delivered(db.log.secs, old(iteratedCnt), old(iteratedObjBytes), old(iteratedValueBytes))
        invariant !more ==> Remaining(db.log.secs, db.oldest) == old(Remaining(db.log.secs, db.oldest))
        invariant !more ==>
                    iteratedCnt == old(iteratedCnt) && iteratedObjBytes == old(iteratedObjBytes) &&
                    iteratedValueBytes == old(iteratedValueBytes)
        decreases !more, !atEnd, |db.log.secs| - traversed
      {
        more := IterateSector(db);
        CursorBounds(At(), currKv, db.log.secs, db.oldest);
      }
      CursorBounds(At(), currKv, db.log.secs, db.oldest);
    }
  }

  lemma DescribedAt(kv: KvInfo, secs: View, sec: nat, j: nat)
    requires Describes(kv, secs, sec, j)
    ensures IsRec(secs, sec, j) && RecAt(secs, Pos(sec, j)) == secs[sec].recs[j]
  {
  }

  lemma InStepBounds(itr: KvIterator, secs: View, oldest: nat)
    requires itr.InStep(secs, oldest)
    ensures oldest < |secs| && (itr.atEnd ==> itr.Remaining(secs, oldest) == [])
  {
  }

  /** Calls until the iterator says it is done deliver all live records, with matching totals. */
  method IterateAll(db: Kvdb) returns (ghost ps: seq<Pos>, cnt: nat, objBytes: nat, valueBytes: nat)
    requires db.Steady()
    modifies db.log`secs, db.log`trace, db.log`cache, db.log.flash
    ensures db.Steady() && db.log.secs == old(db.log.secs)
    ensures NoRepeats(ps) && (forall p :: p in ps <==> Live(db.log.secs, p)) && InOrder(|db.log.secs|, db.oldest, ps)
    ensures cnt == |ps| && objBytes == Sizes(db.log.secs, ps) && valueBytes == ValueSizes(db.log.secs, ps)
  {
    hide KvLog.Log.Valid, Quiescent, AllRight, RecShape, Locates, Live, LiveIn, LiveFrom, SectorAfter, Sizes,
         ValueSizes, NoRepeats, Visible, KvIterator.InStep, KvIterator.Remaining, InOrder;
    var itr := new KvIterator(db);
    ghost var secs, all := db.log.secs, LiveFrom(db.log.secs, db.oldest, 0);
    AllLiveOnce(secs, db.oldest);
    LiveFromOrder(secs, db.oldest, 0);
    ps := [];
    SizesNone(secs);
    var more := true;
    while more
      invariant db.Steady() && db.log.secs == secs && itr.InStep(secs, db.oldest) && (more ==> !itr.atEnd)
      invariant all == ps + itr.Remaining(secs, db.oldest) && (!more ==> itr.Remaining(secs, db.oldest) == [])
      invariant itr.iteratedCnt == |ps| && itr.iteratedObjBytes == Sizes(secs, ps)
      invariant itr.iteratedValueBytes == ValueSizes(secs, ps)
      decreases |all| - |ps|, more
    {
      more := itr.Iterate(db);
      InStepBounds(itr, secs, db.oldest);
      if more {
        SizesMore(secs, ps, Pos(itr.sector, itr.j));
        ps := ps + [Pos(itr.sector, itr.j)];
      }
    }
    assert ps == all;
    cnt, objBytes, valueBytes := itr.iteratedCnt, itr.iteratedObjBytes, itr.iteratedValueBytes;
  }

  lemma SizesNone(secs: View)
    ensures Sizes(secs, []) == 0 && ValueSizes(secs, []) == 0
  {
  }

  lemma {:induction false} SizesMore(secs: View, ps: seq<Pos>, p: Pos)
    ensures Sizes(secs, ps + [p]) == Sizes(secs, ps) + RecAt(secs, p).Len()
    ensures ValueSizes(secs, ps + [p]) == ValueSizes(secs, ps) + |ValueAt(secs, p)|
  {
    if ps != [] {
      SizesMore(secs, ps[1..], p);
      assert (ps + [p])[1..] == ps[1..] + [p];
    }
  }
}
