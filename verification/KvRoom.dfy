/**
  Walking the ring of sectors: the order of the walk, the marks readers leave behind, the room an
  allocation finds.
*/
module KvRoom {
  import opened Bytes
  import opened NorFlash
  import opened KvLayout
  import opened KvImage
  import opened KvWalk
  import opened KvView
  import opened KvModel
  import opened KvRest
  import opened Ring

  // ----- the ring of sectors -----

  /** Those among the first `k` of a walk round the ring. */
  ghost function Seen(secs: View, from: nat, k: nat, store: Store): set<nat>
    requires from < |secs|
  {
    set i | 0 <= i < |secs| && Dist(from, |secs|, i) < k && secs[i].store == store
  }

  lemma SeenStep(secs: View, from: nat, sec: nat, store: Store)
    requires from < |secs| && sec < |secs|
    ensures var k := Dist(from, |secs|, sec);
            && Seen(secs, from, k + 1, store)
                   == (if secs[sec].store == store then Seen(secs, from, k, store) + {sec}
                   else Seen(secs, from, k, store))
            && sec !in Seen(secs, from, k, store)
  {
  }

  lemma SeenEnds(secs: View, from: nat, store: Store)
    requires from < |secs|
    ensures Seen(secs, from, 0, store) == {} && Seen(secs, from, |secs|, store) == WithStore(secs, store)
  {
  }

  // ----- marks left by readers -----

  function MarkFirst(s: Sector): Sector
    requires s.recs != []
  {
    s.(recs := s.recs[0 := Marked(s.recs[0])])
  }

  /** `b` is `a` with error marks added to header-less first records. */
  ghost predicate MarkedFrom(a: View, b: View) {
    |a| == |b| && forall i {:trigger b[i]} :: 0 <= i < |a| ==>
        b[i] == a[i] || (a[i].recs != [] && b[i] == MarkFirst(a[i]))
  }

  lemma MarkedFromTrans(a: View, b: View, c: View)
    requires MarkedFrom(a, b) && MarkedFrom(b, c)
    ensures MarkedFrom(a, c)
  {
  }

  lemma MarkedFromSame(a: View, b: View, i: nat)
    requires MarkedFrom(a, b) && i < |a|
    ensures b[i].store == a[i].store && b[i].dirt == a[i].dirt && b[i].End() == a[i].End() && |b[i].recs| == |a[i].recs|
  {
  }

  lemma ReadMarks(a: View, b: View, sec: nat)
    requires b == a || (IsRec(a, sec, 0) && b == MarkRec(a, sec, 0))
    ensures MarkedFrom(a, b)
  {
  }

  /** A store without header-less records has nothing left to mark. */
  lemma Unmarked(a: View, b: View)
    requires NoMarks(a) && MarkedFrom(a, b)
    ensures b == a
  {
  }

  lemma RestingUnmarked(a: View, b: View, gc: int, size: nat)
    requires Resting(a, gc) && Shaped(a, size) && MarkedFrom(a, b)
    ensures b == a
  {
    RestingNoMarks(a, gc, size);
    Unmarked(a, b);
  }

  /** Marks touch no complete record. */
  lemma MarksSameMap(a: View, b: View)
    requires MarkedFrom(a, b) && Sane(a)
    ensures Sane(b) && SameMap(a, b) && SameRecords(a, b)
    ensures forall k :: Stored(a, k) == Stored(b, k) && Lookup(a, PreDelete, k) == Lookup(b, PreDelete, k)
  {
    assert SameRecords(a, b);
    SameRecordsSameMap(a, b);
  }

  // ----- room for a record -----

  /** The allocator's test on one sector. */
  ghost predicate Fits(s: Sector, size: nat, need: nat, gcRequest: bool) {
    s.End() + need + REMAIN_THRESHOLD < size && (s.dirt == Clean || (s.dirt == Dirty && !gcRequest))
  }

  ghost predicate NoGc(secs: View) {
    forall i :: 0 <= i < |secs| ==> secs[i].dirt != Gc
  }

  /** Sector `sec` is the first one of status `store` with room, in ring order from `oldest`. */
  ghost predicate FirstFit(secs: View, size: nat, oldest: nat, store: Store, need: nat, gcRequest: bool, sec: nat) {
    && oldest < |secs| && sec < |secs| && secs[sec].store == store && Fits(secs[sec], size, need, gcRequest)
    && forall i :: 0 <= i < |secs| && Dist(oldest, |secs|, i) < Dist(oldest, |secs|, sec) ==>
         !(secs[i].store == store && Fits(secs[i], size, need, gcRequest))
  }

  ghost predicate NoFit(secs: View, size: nat, store: Store, need: nat, gcRequest: bool) {
    forall i :: 0 <= i < |secs| && secs[i].store == store ==> !Fits(secs[i], size, need, gcRequest)
  }

  /** Every view recorded since `from` is `base` up to error marks. */
  ghost predicate OnlyMarks(trace: seq<View>, from: nat, base: View) {
    forall t {:trigger trace[t]} :: from <= t < |trace| ==> MarkedFrom(base, trace[t])
  }

  lemma OnlyMarksSame(trace: seq<View>, from: nat, base: View)
    requires OnlyMarks(trace, from, base) && Sane(base)
    ensures AllSame(trace, from, base)
  {
    hide Sane, MarkedFrom, SameMap;
    forall t | from <= t < |trace| ensures Sane(trace[t]) && SameMap(base, trace[t]) {
      MarksSameMap(base, trace[t]);
    }
  }

  lemma OnlyMarksMore(trace: seq<View>, more: seq<View>, from: nat, base: View, a: View, b: View)
    requires OnlyMarks(trace, from, base) && MarkedFrom(base, a) && MarkedFrom(a, b)
    requires more == trace + (if b == a then [] else [b])
    ensures OnlyMarks(more, from, base) && MarkedFrom(base, b)
  {
    MarkedFromTrans(base, a, b);
  }

  /** The sector an allocation takes. */
  ghost predicate Chosen(secs: View, size: nat, oldest: nat, need: nat, gcRequest: bool, sec: nat) {
    if NoFit(secs, size, Using, need, gcRequest) then
      (gcRequest || |Empties(secs)| > 1) && FirstFit(secs, size, oldest, Empty, need, gcRequest, sec)
    else
      FirstFit(secs, size, oldest, Using, need, gcRequest, sec)
  }

  ghost predicate NoChoice(secs: View, size: nat, need: nat, gcRequest: bool) {
    NoFit(secs, size, Using, need, gcRequest) &&
    (gcRequest || |Empties(secs)| > 1 ==> NoFit(secs, size, Empty, need, gcRequest))
  }

  lemma NoChoiceParts(secs: View, size: nat, need: nat, gcRequest: bool)
    requires NoChoice(secs, size, need, gcRequest) && !gcRequest
    ensures NoFit(secs, size, Using, need, false)
  {
  }

  // ----- reading the records of a sector -----

  lemma ShapedShape(secs: View, size: nat, sec: nat, i: nat)
    requires Shaped(secs, size) && IsRec(secs, sec, i)
    ensures RecShape(secs[sec].recs[i]) && secs[sec].store == Using
  {
  }

  lemma CompleteUnmarked(secs: View, sec: nat, i: nat)
    requires IsRec(secs, sec, i) && secs[sec].recs[i].Complete()
    ensures Visible(secs[sec].recs[i]) && MarkRec(secs, sec, i) == secs
  {
    MarkRecIs(secs, sec, i);
  }

  lemma ReportedMatch(kv: KvInfo, secs: View, sec: nat, j: nat, key: Key)
    requires IsRec(secs, sec, j) && RecShape(secs[sec].recs[j]) && Reports(kv, sec, secs[sec].recs[j])
    ensures kv.start == Addr(sec, secs[sec].recs[j].off) && Locates(kv, sec, secs[sec].recs[j])
    ensures kv.crcOk && kv.status == Write && kv.name == key <==> At(secs, Pos(sec, j), Write, key)
  {
    var r := secs[sec].recs[j];
    if r.Complete() {
      CompleteIsGood(r);
    }
  }

  lemma SkippedNotAt(secs: View, sec: nat, j: nat, key: Key)
    requires IsRec(secs, sec, j)
    ensures forall i :: j < i < NextVisible(secs[sec].recs, j) ==> !At(secs, Pos(sec, i), Write, key)
  {
  }

  lemma NoneBeyond(secs: View, sec: nat, key: Key)
    requires sec < |secs|
    ensures forall i :: i >= |secs[sec].recs| ==> !At(secs, Pos(sec, i), Write, key)
  {
  }

  lemma StoreNotFull(secs: View, size: nat, sec: nat)
    requires Shaped(secs, size) && sec < |secs|
    ensures secs[sec].store != Full
  {
  }

  lemma NoRecordsNotAt(secs: View, size: nat, sec: nat, key: Key)
    requires Shaped(secs, size) && sec < |secs| && secs[sec].store != Using
    ensures forall i :: !At(secs, Pos(sec, i), Write, key)
  {
  }

  lemma MarkedFromAt(a: View, b: View, key: Key)
    requires MarkedFrom(a, b)
    ensures forall q :: At(a, q, Write, key) <==> At(b, q, Write, key)
  {
  }

  lemma OutsideNotAt(secs: View, key: Key)
    ensures forall q: Pos :: q.sec >= |secs| ==> !At(secs, q, Write, key)
  {
  }

  lemma ExtendsMore(a: seq<View>, b: seq<View>, c: seq<View>)
    requires Extends(a, b) && |b| <= |c| && c[..|b|] == b
    ensures Extends(a, c)
  {
    assert c[..|a|] == b[..|a|];
  }

  /** Each place is in one sector only, at one distance round the ring. */
  lemma OnlyThisSector(secs: View, oldest: nat, sec: nat, key: Key)
    requires oldest < |secs| && sec < |secs| && forall i :: !At(secs, Pos(sec, i), Write, key)
    ensures forall q: Pos ::
              q.sec < |secs| && Dist(oldest, |secs|, q.sec) == Dist(oldest, |secs|, sec) ==> !At(secs, q, Write, key)
  {
    hide At;
    forall q: Pos | q.sec < |secs| &&
        Dist(oldest, |secs|, q.sec) == Dist(oldest, |secs|, sec) ensures !At(secs, q, Write, key) {
      assert q == Pos(sec, q.idx);
    }
  }

  /** A usable answer of the allocator about sector `sec`. */
  ghost predicate RoomAt(info: SecInfo, secs: View, size: nat, sec: nat, need: nat) {
    info.sec == sec && SlotOk(info, secs, size) && info.remain > need + REMAIN_THRESHOLD
  }

  lemma NoneInUse(secs: View, size: nat, need: nat, gcRequest: bool)
    ensures |WithStore(secs, Using)| == 0 ==> NoFit(secs, size, Using, need, gcRequest)
  {
    if |WithStore(secs, Using)| == 0 {
      forall i | 0 <= i < |secs| ensures secs[i].store != Using {
        assert i !in WithStore(secs, Using);
      }
    }
  }

  lemma NoneEmpty(secs: View, size: nat, need: nat, gcRequest: bool)
    ensures |WithStore(secs, Empty)| == 0 ==> NoFit(secs, size, Empty, need, gcRequest)
  {
    if |WithStore(secs, Empty)| == 0 {
      forall i | 0 <= i < |secs| ensures secs[i].store != Empty {
        assert i !in WithStore(secs, Empty);
      }
    }
  }

  lemma FirstFitFits(secs: View, size: nat, oldest: nat, store: Store, need: nat, gcRequest: bool, r: Option<SecInfo>)
    requires r.Some? ==> FirstFit(secs, size, oldest, store, need, gcRequest, r.value.sec)
    ensures r.Some? ==> !NoFit(secs, size, store, need, gcRequest)
  {
    hide Fits;
  }

  lemma FitSame(a: View, b: View, size: nat, oldest: nat, store: Store, need: nat, gcRequest: bool)
    requires MarkedFrom(a, b) && oldest < |a|
    ensures NoFit(a, size, store, need, gcRequest) <==> NoFit(b, size, store, need, gcRequest)
    ensures forall i ::
              FirstFit(b, size, oldest, store, need, gcRequest, i) ==>
                FirstFit(a, size, oldest, store, need, gcRequest, i)
  {
    hide Fits, MarkedFrom, Dist;
    MarkedFromLength(a, b);
    forall i | 0 <= i < |a| ensures b[i].store == a[i].store &&
        Fits(b[i], size, need, gcRequest) == Fits(a[i], size, need, gcRequest) {
      MarkedFromFits(a, b, i, size, need, gcRequest);
    }
  }

  lemma MarkedFromLength(a: View, b: View)
    requires MarkedFrom(a, b)
    ensures |a| == |b|
  {
  }

  lemma OnlyMarksChain(t0: seq<View>, t1: seq<View>, from: nat, base: View, v: View)
    requires Extends(t0, t1) && from <= |t0| && OnlyMarks(t0, from, base) && MarkedFrom(base, v)
    requires OnlyMarks(t1, |t0|, v)
    ensures OnlyMarks(t1, from, base)
  {
    hide MarkedFrom;
    forall t | from <= t < |t1| ensures MarkedFrom(base, t1[t]) {
      if t < |t0| {
        assert t1[..|t0|][t] == t0[t];
      } else {
        MarkedFromTrans(base, v, t1[t]);
      }
    }
  }

  lemma MarkedFromNoGc(a: View, b: View)
    requires MarkedFrom(a, b)
    ensures NoGc(a) ==> NoGc(b)
  {
  }

  lemma MarkedFromFits(a: View, b: View, i: nat, size: nat, need: nat, gcRequest: bool)
    requires MarkedFrom(a, b) && i < |a|
    ensures b[i].store == a[i].store && Fits(b[i], size, need, gcRequest) == Fits(a[i], size, need, gcRequest)
  {
    MarkedFromSame(a, b, i);
  }

  lemma NoneAtStart(secs: View, size: nat, oldest: nat, store: Store, need: nat, gcRequest: bool)
    requires oldest < |secs|
    ensures NoneBefore(secs, size, oldest, store, need, gcRequest, 0)
  {
  }

  lemma NothingMarked(base: View, trace: seq<View>)
    ensures MarkedFrom(base, base) && OnlyMarks(trace, |trace|, base)
  {
  }

  ghost predicate NoneBefore(secs: View, size: nat, oldest: nat, store: Store, need: nat, gcRequest: bool, k: nat) {
    oldest < |secs| && forall i :: 0 <= i < |secs| && Dist(oldest, |secs|, i) < k ==>
      !(secs[i].store == store && Fits(secs[i], size, need, gcRequest))
  }

  lemma NotHere(secs: View, size: nat, oldest: nat, store: Store, need: nat, gcRequest: bool, sec: nat)
    requires oldest < |secs| && sec < |secs|
    requires NoneBefore(secs, size, oldest, store, need, gcRequest, Dist(oldest, |secs|, sec))
    requires !(secs[sec].store == store && Fits(secs[sec], size, need, gcRequest))
    ensures NoneBefore(secs, size, oldest, store, need, gcRequest, Dist(oldest, |secs|, sec) + 1)
  {
    hide Fits;
  }

  lemma NoneAtAll(secs: View, size: nat, oldest: nat, store: Store, need: nat, gcRequest: bool)
    requires NoneBefore(secs, size, oldest, store, need, gcRequest, |secs|)
    ensures NoFit(secs, size, store, need, gcRequest)
  {
    hide Fits;
  }

  lemma FoundFirst(secs: View, size: nat, oldest: nat, store: Store, need: nat, gcRequest: bool, sec: nat)
    requires oldest < |secs| && sec < |secs|
    requires NoneBefore(secs, size, oldest, store, need, gcRequest, Dist(oldest, |secs|, sec))
    requires secs[sec].store == store && Fits(secs[sec], size, need, gcRequest)
    ensures FirstFit(secs, size, oldest, store, need, gcRequest, sec)
  {
    hide Fits;
  }

  lemma InfoParts(info: SecInfo, secs: View, size: nat)
    requires info.sec < |secs|
    requires secs[info.sec].store == StoreUnused ==> !info.checkOk && info.store == StoreUnused
    requires secs[info.sec].store != StoreUnused ==> InfoOk(info, secs, size)
    ensures info.store == secs[info.sec].store && (info.checkOk <==> info.store != StoreUnused)
  {
  }

  /** The code's test on cached or fresh information decides whether the record fits. */
  lemma InfoFits(info: SecInfo, base: View, secs: View, size: nat, need: nat, gcRequest: bool)
    requires info.sec < |secs| == |base| && InfoOk(info, secs, size) && info.emptyKv.Some? && (gcRequest || NoGc(base))
    requires base[info.sec].End() == secs[info.sec].End() && base[info.sec].dirt == secs[info.sec].dirt
    ensures info.remain > need + REMAIN_THRESHOLD && (info.dirt == Clean || (info.dirt == Dirty && !gcRequest))
            <==> Fits(base[info.sec], size, need, gcRequest)
  {
  }

  // ----- moving a record -----

  /** A move that went through: copied to `t`, the sector the allocator picks, and deleted. */
  ghost predicate MovedTo(a: View, b: View, p: Pos, t: int, size: nat, oldest: nat, len: nat, gcRequest: bool) {
    var v := Prepared(a, p, Write);
    && 0 <= t < |v| && IsRec(v, p.sec, p.idx) && b == CopiedView(v, p, t)
    && Chosen(v, size, oldest, len, gcRequest, t)
  }

  lemma PriorFacts(kv: KvInfo, a: View, size: nat, p: Pos, prior: KvStatus)
    requires Shaped(a, size) && At(a, p, prior, kv.name) && RecShape(RecAt(a, p)) && Reports(kv, p.sec, RecAt(a, p))
    ensures IsRec(a, p.sec, p.idx) && kv.status == prior && kv.start == Addr(p.sec, RecAt(a, p).off)
    ensures kv.len == RecAt(a, p).Len()
    ensures var v := Prepared(a, p, prior);
            IsRec(v, p.sec, p.idx) && |v| == |a| && RecAt(v, p).off == RecAt(a, p).off &&
            RecAt(v, p).Len() == RecAt(a, p).Len()
  {
    ReportsStatus(kv, p.sec, a, p);
  }

  lemma PreparedGc(a: View, p: Pos, prior: KvStatus)
    ensures NoGc(a) ==> NoGc(Prepared(a, p, prior))
  {
  }

  /** Marks left on the way keep the map and the points of power loss. */
  lemma MarkedStep(t0: seq<View>, t1: seq<View>, t2: seq<View>, base: View, a: View, b: View)
    requires Extends(t0, t1) && AllSame(t1, |t0|, base) && Sane(a) && SameMap(base, a)
    requires MarkedFrom(a, b) && Extends(t1, t2) && OnlyMarks(t2, |t1|, a)
    ensures Sane(b) && SameMap(base, b) && Extends(t0, t2) && AllSame(t2, |t0|, base)
    ensures forall k :: Stored(a, k) == Stored(b, k) && Lookup(a, PreDelete, k) == Lookup(b, PreDelete, k)
  {
    hide Sane, SameMap, MarkedFrom, Lookup;
    MarksSameMap(a, b);
    SameMapTrans(base, a, b);
    OnlyMarksSame(t2, |t1|, a);
    AllSameChain(t1, t2, |t0|, base, a);
    ExtendsTrans(t0, t1, t2);
  }

  lemma MarkedAt(a: View, b: View, p: Pos, st: KvStatus, key: Key)
    requires MarkedFrom(a, b) && At(a, p, st, key) && st in {Write, PreDelete}
    ensures At(b, p, st, key) && RecAt(b, p) == RecAt(a, p)
  {
  }

  lemma MarkedRoom(a: View, b: View, size: nat, info: SecInfo, need: nat)
    requires MarkedFrom(a, b) && RoomAt(info, a, size, info.sec, need)
    ensures RoomAt(info, b, size, info.sec, need)
  {
    MarkedFromSame(a, b, info.sec);
  }

  /** On the way to `Settles`: `p` itself is still there, as it was or half-deleted. */
  ghost predicate Settling(a: View, w: View, p: Pos) {
    && |a| == |w| && IsRec(a, p.sec, p.idx) && IsRec(w, p.sec, p.idx)
    && WithStatus(RecAt(w, p), Deleted) == WithStatus(RecAt(a, p), Deleted) && OthersKept(a, w, p)
    && forall i :: 0 <= i < |a| ==> |a[i].recs| <= |w[i].recs|
  }

  lemma SettlingMarked(a: View, v: View, m: View, p: Pos, prior: KvStatus)
    requires v == Prepared(a, p, prior) && MarkedFrom(v, m) && IsRec(a, p.sec, p.idx) && RecAt(a, p).Complete()
    requires IsRec(m, p.sec, p.idx)
    ensures Settling(a, m, p)
  {
  }

  lemma SettlingAppended(a: View, m: View, p: Pos, t: nat, key: Key, value: Value)
    requires Settling(a, m, p) && t < |m|
    ensures Settling(a, m[t := Appended(m[t], key, value)], p)
  {
    var w := m[t := Appended(m[t], key, value)];
    forall q: Pos | IsRec(w, q.sec, q.idx) && q != p
      ensures if IsRec(a, q.sec, q.idx) then RecAt(w, q) in {RecAt(a, q), Marked(RecAt(a, q))}
              else RecAt(w, q).status == Write
    {
      if IsRec(m, q.sec, q.idx) {
        assert RecAt(w, q) == RecAt(m, q);
      }
    }
  }

  lemma SettlingDeleted(a: View, w: View, p: Pos)
    requires Settling(a, w, p)
    ensures Settles(a, DeletedView(w, p.sec, p.idx, Deleted), p)
  {
    var b := DeletedView(w, p.sec, p.idx, Deleted);
    forall q: Pos | IsRec(b, q.sec, q.idx) && q != p
      ensures if IsRec(a, q.sec, q.idx) then RecAt(b, q) in {RecAt(a, q), Marked(RecAt(a, q))}
              else RecAt(b, q).status == Write
    {
      assert RecAt(b, q) == RecAt(w, q);
    }
  }

  lemma SettlesDeleted(a: View, v: View, m: View, p: Pos, prior: KvStatus)
    requires v == Prepared(a, p, prior) && MarkedFrom(v, m) && IsRec(a, p.sec, p.idx) && RecAt(a, p).Complete()
    requires IsRec(m, p.sec, p.idx)
    ensures Settles(a, DeletedView(m, p.sec, p.idx, Deleted), p)
  {
    hide Settling, Settles, DeletedView, MarkedFrom, Prepared;
    SettlingMarked(a, v, m, p, prior);
    SettlingDeleted(a, m, p);
  }

  lemma SettlesCopied(a: View, v: View, m: View, p: Pos, prior: KvStatus, t: nat)
    requires v == Prepared(a, p, prior) && MarkedFrom(v, m) && IsRec(a, p.sec, p.idx) && RecAt(a, p).Complete()
    requires t < |m| && IsRec(m, p.sec, p.idx)
    ensures Settles(a, CopiedView(m, p, t), p)
  {
    hide Settling, Settles, DeletedView, MarkedFrom, Prepared, Appended;
    SettlingMarked(a, v, m, p, prior);
    SettlingAppended(a, m, p, t, RecAt(m, p).key, RecAt(m, p).value);
    AppendKeepsRec(m, p, t, RecAt(m, p).key, RecAt(m, p).value);
    SettlingDeleted(a, m[t := Appended(m[t], RecAt(m, p).key, RecAt(m, p).value)], p);
  }

  /** What the last part of `move_kv` makes of `m`: a copy in sector `t`, or none; the old record deleted. */
  ghost predicate Placed(m: View, b: View, p: Pos, t: nat, copied: bool) {
    && IsRec(m, p.sec, p.idx) && (copied ==> t < |m|)
    && b == if copied then CopiedView(m, p, t) else DeletedView(m, p.sec, p.idx, Deleted)
  }

  /** Headers change no more than writing a record and deleting one makes them, and no record goes away. */
  ghost predicate HeadersKept(a: View, b: View) {
    |a| == |b| && forall i :: 0 <= i < |a| ==>
      && |a[i].recs| <= |b[i].recs|
      && (b[i].store == a[i].store || (a[i].store == Empty && b[i].store == Using))
      && (b[i].dirt == a[i].dirt || (a[i].dirt == Clean && b[i].dirt == Dirty))
  }

  /** A move that went through, seen from its start. */
  lemma MoveResult(a: View, v: View, m: View, b: View, p: Pos, prior: KvStatus, t: nat, copied: bool)
    requires v == Prepared(a, p, prior) && MarkedFrom(v, m) && IsRec(a, p.sec, p.idx) && RecAt(a, p).Complete()
    requires Placed(m, b, p, t, copied) && (copied ==> t < |v| && v[t].store in {Empty, Using})
    ensures Settles(a, b, p) && HeadersKept(a, b)
  {
    hide Settles, MarkedFrom, CopiedView, DeletedView, HeadersKept, Prepared;
    MarkedFromLength(v, m);
    if copied {
      SettlesCopied(a, v, m, p, prior, t);
      CopiedHeaders(a, v, m, p, prior, t);
    } else {
      SettlesDeleted(a, v, m, p, prior);
      DeletedHeaders(a, v, m, p, prior);
    }
  }

  lemma DeletedHeaders(a: View, v: View, m: View, p: Pos, prior: KvStatus)
    requires v == Prepared(a, p, prior) && MarkedFrom(v, m) && IsRec(m, p.sec, p.idx)
    ensures HeadersKept(a, DeletedView(m, p.sec, p.idx, Deleted)) && HeadersKept(a, m)
  {
    hide MarkedFrom;
    MarkedFromLength(v, m);
    forall i | 0 <= i < |v| ensures m[i].store == v[i].store && m[i].dirt == v[i].dirt && |m[i].recs| == |v[i].recs| {
      MarkedFromSame(v, m, i);
    }
  }

  lemma CopiedHeaders(a: View, v: View, m: View, p: Pos, prior: KvStatus, t: nat)
    requires v == Prepared(a, p, prior) && MarkedFrom(v, m) && IsRec(m, p.sec, p.idx) && t < |v| == |m|
    requires v[t].store in {Empty, Using}
    ensures HeadersKept(a, CopiedView(m, p, t))
  {
    hide MarkedFrom, DeletedView, Prepared, Appended;
    DeletedHeaders(a, v, m, p, prior);
    MarkedFromSame(v, m, t);
    var w := m[t := Appended(m[t], RecAt(m, p).key, RecAt(m, p).value)];
    AppendedHeader(m[t], RecAt(m, p).key, RecAt(m, p).value);
    AppendKeepsRec(m, p, t, RecAt(m, p).key, RecAt(m, p).value);
    assert HeadersKept(a, w);
    DeletedHeader(w, p);
  }

  lemma AppendedHeader(s: Sector, key: Key, value: Value)
    ensures Appended(s, key, value).store == Using && Appended(s, key, value).dirt == s.dirt
    ensures |Appended(s, key, value).recs| == |s.recs| + 1
  {
  }

  lemma DeletedHeader(w: View, p: Pos)
    requires IsRec(w, p.sec, p.idx)
    ensures var b := DeletedView(w, p.sec, p.idx, Deleted);
            |b| == |w| &&
            (forall i :: 0 <= i < |w| ==>
                |b[i].recs| == |w[i].recs| && b[i].store == w[i].store &&
                (b[i].dirt == w[i].dirt || (w[i].dirt == Clean && b[i].dirt == Dirty)))
  {
  }

  /** An empty sector is still there. */
  ghost predicate ReserveKept(a: View, b: View) {
    Empties(a) != {} ==> Empties(b) != {}
  }

  lemma PlacedEmpties(m: View, b: View, p: Pos, t: nat, copied: bool)
    requires Placed(m, b, p, t, copied)
    ensures Empties(b) == if copied then Empties(m) - {t} else Empties(m)
  {
    hide Appended;
    if copied {
      AppendedHeader(m[t], RecAt(m, p).key, RecAt(m, p).value);
    }
  }

  lemma PreparedEmpties(a: View, v: View, m: View, p: Pos, prior: KvStatus)
    requires v == Prepared(a, p, prior) && MarkedFrom(v, m)
    ensures Empties(m) == Empties(v) == Empties(a)
  {
    hide MarkedFrom;
    MarkedFromLength(v, m);
    forall i | 0 <= i < |v| ensures m[i].store == v[i].store {
      MarkedFromSame(v, m, i);
    }
  }

  lemma ReservePlaced(a: View, v: View, m: View, b: View, p: Pos, prior: KvStatus, t: nat, copied: bool)
    requires v == Prepared(a, p, prior) && MarkedFrom(v, m) && Placed(m, b, p, t, copied)
    ensures |Empties(b)| + 1 >= |Empties(a)| && |Empties(v)| == |Empties(a)|
    ensures (copied ==> t < |v| && (v[t].store == Using || |Empties(v)| > 1)) ==> ReserveKept(a, b)
  {
    hide MarkedFrom, Prepared, Placed;
    PlacedEmpties(m, b, p, t, copied);
    PreparedEmpties(a, v, m, p, prior);
    if t in Empties(m) {
      assert |Empties(m) - {t}| == |Empties(m)| - 1;
    } else {
      assert Empties(m) - {t} == Empties(m);
    }
  }

  lemma ChosenUnrequested(v: View, size: nat, oldest: nat, need: nat, t: nat)
    requires Chosen(v, size, oldest, need, false, t)
    ensures !(NoFit(v, size, Using, need, false) && |Empties(v)| == 1)
  {
  }

  /** All a caller of `move_kv` relies on. */
  lemma MoveDoes(a: View, v: View, m: View, b: View, p: Pos, prior: KvStatus, t: nat, copied: bool, size: nat,
                 oldest: nat, len: nat, gcRequest: bool)
    requires v == Prepared(a, p, prior) && MarkedFrom(v, m) && IsRec(a, p.sec, p.idx) && RecAt(a, p).Complete()
    requires Placed(m, b, p, t, copied) && Chosen(v, size, oldest, len, gcRequest, t) && (prior == Write ==> copied)
    ensures Settles(a, b, p) && HeadersKept(a, b) && (!gcRequest ==> ReserveKept(a, b))
    ensures |Empties(b)| + 1 >= |Empties(a)|
    ensures NoMarks(a) && prior == Write ==> MovedTo(a, b, p, t, size, oldest, len, gcRequest)
  {
    hide Settles, HeadersKept, MarkedFrom, ReserveKept, NoMarks, NoFit, Fits, Dist, CopiedView, Empties;
    MoveResult(a, v, m, b, p, prior, t, copied);
    ReservePlaced(a, v, m, b, p, prior, t, copied);
    PreparedUnmarked(a, v, m, p, prior);
  }

  lemma PreparedUnmarked(a: View, v: View, m: View, p: Pos, prior: KvStatus)
    requires v == Prepared(a, p, prior) && MarkedFrom(v, m) && IsRec(a, p.sec, p.idx) && RecAt(a, p).Complete()
    ensures NoMarks(a) ==> m == v
  {
    if NoMarks(a) {
      DeletedNoMarks(a, p.sec, p.idx, PreDelete);
      Unmarked(v, m);
    }
  }
}
