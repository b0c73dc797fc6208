/**
  The recovery pass of a boot, on views: which records it has dealt with, what it leaves of the
  others, and when it is done.
*/
module KvRecovery {
  import opened Bytes
  import opened NorFlash
  import opened KvLayout
  import opened KvImage
  import opened KvWalk
  import opened KvView
  import opened KvModel
  import opened KvRest
  import opened KvRoom
  import opened KvGc
  import opened KvCrash
  import opened KvRestart
  import opened Ring

  /** How a pass ends: at the end of the store, at a record that was cut short, or without room. */
  datatype Pass = Finished | Interrupted | NoRoom

  /** The records recovery still has to deal with. */
  ghost function Pending(secs: View): set<Pos> {
    set i: nat, j: nat | i < |secs| && j < |secs[i].recs| && !AtRest(secs[i].recs[j]) :: Pos(i, j)
  }

  lemma PendingIs(secs: View, p: Pos)
    ensures p in Pending(secs) <==> IsRec(secs, p.sec, p.idx) && !AtRest(RecAt(secs, p))
  {
    if IsRec(secs, p.sec, p.idx) && !AtRest(RecAt(secs, p)) {
      assert !AtRest(secs[p.sec].recs[p.idx]);
    }
  }

  /** Record `p` is settled for good; the others stay, but for error marks; new ones are at rest. */
  ghost predicate Dealt(a: View, b: View, p: Pos) {
    && |a| == |b| && (forall i :: 0 <= i < |a| ==> |a[i].recs| <= |b[i].recs|)
    && IsRec(a, p.sec, p.idx) && AtRest(RecAt(b, p))
    && forall q: Pos {:trigger RecAt(b, q)} :: IsRec(b, q.sec, q.idx) && q != p ==>
         if IsRec(a, q.sec, q.idx) then RecAt(b, q) in {RecAt(a, q), Marked(RecAt(a, q))} else AtRest(RecAt(b, q))
  }

  /** Reached by a walk round the ring that has passed `k` sectors and `j` records of the next. */
  ghost predicate Visited(num: nat, oldest: nat, k: nat, j: nat, q: Pos)
    requires oldest < num
  {
    q.sec < num && (Dist(oldest, num, q.sec) < k || (Dist(oldest, num, q.sec) == k && q.idx < j))
  }

  /** Everything visited is at rest, everything else is as it was in `a`. */
  ghost predicate Sweep(a: View, v: View, oldest: nat, k: nat, j: nat) {
    && oldest < |a| == |v| && (forall i :: 0 <= i < |a| ==> |a[i].recs| <= |v[i].recs|)
    && forall q: Pos {:trigger RecAt(v, q)} :: IsRec(v, q.sec, q.idx) ==>
         if IsRec(a, q.sec, q.idx) && !Visited(|a|, oldest, k, j, q) then
             RecAt(v, q) in {RecAt(a, q), Marked(RecAt(a, q))}
         else AtRest(RecAt(v, q))
  }

  /** A record whose header is there but whose writing was not finished. */
  predicate CutShort(r: Rec) {
    r.status == PreWrite && r.written >= KV_HDR
  }

  /** No record of `a` that the walk has reached was cut short. */
  ghost predicate NoneCut(a: View, oldest: nat, k: nat, j: nat) {
    oldest < |a| &&
    forall q: Pos {:trigger RecAt(a, q)} ::
      IsRec(a, q.sec, q.idx) && Visited(|a|, oldest, k, j, q) ==> !CutShort(RecAt(a, q))
  }

  ghost predicate AnyCut(a: View) {
    exists q: Pos {:trigger RecAt(a, q)} :: IsRec(a, q.sec, q.idx) && CutShort(RecAt(a, q))
  }

  /** A record the walk has not reached is cut short if it was so from the start. */
  lemma CutStays(a: View, v: View, oldest: nat, p: Pos)
    requires oldest < |a| && p.sec < |a| && Sweep(a, v, oldest, Dist(oldest, |a|, p.sec), p.idx)
    requires IsRec(a, p.sec, p.idx)
    ensures IsRec(v, p.sec, p.idx) && (CutShort(RecAt(v, p)) <==> CutShort(RecAt(a, p)))
  {
    assert !Visited(|a|, oldest, Dist(oldest, |a|, p.sec), p.idx, p);
  }

  lemma NoneCutStep(a: View, v: View, oldest: nat, p: Pos)
    requires oldest < |a| && p.sec < |a| && Sweep(a, v, oldest, Dist(oldest, |a|, p.sec), p.idx)
    requires NoneCut(a, oldest, Dist(oldest, |a|, p.sec), p.idx) && !CutShort(RecAt(v, p))
    ensures NoneCut(a, oldest, Dist(oldest, |a|, p.sec), p.idx + 1)
  {
    hide Sweep, CutShort;
    var k := Dist(oldest, |a|, p.sec);
    forall q: Pos | IsRec(a, q.sec, q.idx) && Visited(|a|, oldest, k, p.idx + 1, q) ensures !CutShort(RecAt(a, q)) {
      if !Visited(|a|, oldest, k, p.idx, q) {
        SameDist(oldest, |a|, p.sec, q.sec);
        assert q == p;
        CutStays(a, v, oldest, p);
      }
    }
  }

  lemma NoneCutSkips(a: View, v: View, oldest: nat, sec: nat, j: nat, n: nat)
    requires oldest < |a| && sec < |a| && Sweep(a, v, oldest, Dist(oldest, |a|, sec), j) && j <= n <= |v[sec].recs|
    requires NoneCut(a, oldest, Dist(oldest, |a|, sec), j) && forall i :: j <= i < n ==> !Visible(v[sec].recs[i])
    ensures NoneCut(a, oldest, Dist(oldest, |a|, sec), n)
  {
    var k := Dist(oldest, |a|, sec);
    forall q: Pos | IsRec(a, q.sec, q.idx) && Visited(|a|, oldest, k, n, q) ensures !CutShort(RecAt(a, q)) {
      if !Visited(|a|, oldest, k, j, q) {
        SameDist(oldest, |a|, sec, q.sec);
        assert RecAt(v, q) in {RecAt(a, q), Marked(RecAt(a, q))};
      }
    }
  }

  lemma NoneCutNext(a: View, v: View, oldest: nat, sec: nat)
    requires oldest < |a| == |v| && sec < |a| && |a[sec].recs| <= |v[sec].recs|
    requires NoneCut(a, oldest, Dist(oldest, |a|, sec), |v[sec].recs|)
    ensures NoneCut(a, oldest, Dist(oldest, |a|, sec) + 1, 0)
  {
    hide CutShort;
    var k := Dist(oldest, |a|, sec);
    forall q: Pos | IsRec(a, q.sec, q.idx) && Visited(|a|, oldest, k + 1, 0, q) ensures !CutShort(RecAt(a, q)) {
      SameDist(oldest, |a|, sec, q.sec);
    }
  }

  lemma NoneCutDone(a: View, oldest: nat)
    requires NoneCut(a, oldest, |a|, 0)
    ensures !AnyCut(a)
  {
    hide CutShort;
    forall q: Pos | IsRec(a, q.sec, q.idx) ensures !CutShort(RecAt(a, q)) {
      assert Visited(|a|, oldest, |a|, 0, q);
    }
  }

  lemma NoneCutStarts(a: View, oldest: nat)
    requires oldest < |a|
    ensures NoneCut(a, oldest, 0, 0)
  {
  }

  lemma GrownBySweep(a: View, v: View, oldest: nat, k: nat, j: nat, sec: nat)
    requires Sweep(a, v, oldest, k, j) && sec < |a|
    ensures |a| == |v| && |a[sec].recs| <= |v[sec].recs|
  {
  }

  /** Where the pass stopped there was a record cut short from the start. */
  lemma StoppedAtCut(a: View, v: View, oldest: nat, p: Pos)
    requires oldest < |a| && p.sec < |a| && Sweep(a, v, oldest, Dist(oldest, |a|, p.sec), p.idx)
    requires IsRec(v, p.sec, p.idx) && CutShort(RecAt(v, p))
    ensures IsRec(a, p.sec, p.idx) && CutShort(RecAt(a, p)) && AnyCut(a)
  {
    assert !AtRest(RecAt(v, p));
    CutStays(a, v, oldest, p);
  }

  lemma MarkedRests(r: Rec)
    ensures AtRest(r) ==> AtRest(Marked(r))
    ensures Marked(Marked(r)) == Marked(r)
  {
  }

  lemma DealtPending(a: View, b: View, p: Pos)
    requires Dealt(a, b, p)
    ensures Pending(b) <= Pending(a) - {p}
  {
    forall q | q in Pending(b) ensures q in Pending(a) - {p} {
      PendingIs(b, q);
      PendingIs(a, q);
      MarkedRests(RecAt(a, q));
      assert q != p ==> IsRec(a, q.sec, q.idx) && RecAt(b, q) in {RecAt(a, q), Marked(RecAt(a, q))};
    }
  }

  lemma DealtStays(a: View, p: Pos)
    requires IsRec(a, p.sec, p.idx) && AtRest(RecAt(a, p))
    ensures Dealt(a, a, p)
  {
  }

  lemma SettledDealt(a: View, b: View, p: Pos)
    requires Settles(a, b, p) && HeadersKept(a, b)
    ensures Dealt(a, b, p)
  {
  }

  lemma ErrorDealt(a: View, p: Pos)
    requires IsRec(a, p.sec, p.idx)
    ensures Dealt(a, a[p.sec := SetRecStatus(a[p.sec], p.idx, ErrHdr)], p)
  {
  }

  lemma DealtAfterMarks(a: View, m: View, b: View, p: Pos)
    requires MarkedFrom(a, m) && Dealt(m, b, p)
    ensures Dealt(a, b, p)
  {
    forall i | 0 <= i < |a| ensures |a[i].recs| <= |b[i].recs| {
      MarkedFromSame(a, m, i);
    }
    MarkedFromSame(a, m, p.sec);
    forall q: Pos | IsRec(b, q.sec, q.idx) && q != p
      ensures if IsRec(a, q.sec, q.idx) then RecAt(b, q) in {RecAt(a, q), Marked(RecAt(a, q))} else AtRest(RecAt(b, q))
    {
      MarkedFromSame(a, m, q.sec);
      if IsRec(a, q.sec, q.idx) {
        MarkedRests(RecAt(a, q));
        assert RecAt(m, q) in {RecAt(a, q), Marked(RecAt(a, q))};
      }
    }
  }

  // ----- the sweep -----

  lemma SweepStarts(a: View, oldest: nat)
    requires oldest < |a|
    ensures Sweep(a, a, oldest, 0, 0)
  {
  }

  lemma SweepStep(a: View, v: View, w: View, oldest: nat, p: Pos)
    requires oldest < |a| && p.sec < |a| && Sweep(a, v, oldest, Dist(oldest, |a|, p.sec), p.idx) && Dealt(v, w, p)
    ensures Sweep(a, w, oldest, Dist(oldest, |a|, p.sec), p.idx + 1)
  {
    hide AtRest, Marked;
    var k := Dist(oldest, |a|, p.sec);
    forall q: Pos | IsRec(w, q.sec, q.idx)
      ensures if IsRec(a, q.sec, q.idx) && !Visited(|a|, oldest, k, p.idx + 1, q) then
                  RecAt(w, q) in {RecAt(a, q), Marked(RecAt(a, q))}
              else AtRest(RecAt(w, q))
    {
      MarkedRests(RecAt(a, q));
      MarkedRests(RecAt(v, q));
      assert IsRec(v, q.sec, q.idx) ==> RecAt(v, q) == RecAt(v, q);
      if q.sec == p.sec && q.idx == p.idx {
        assert q == p;
      } else if Visited(|a|, oldest, k, p.idx + 1, q) {
        SameDist(oldest, |a|, p.sec, q.sec);
        assert Visited(|a|, oldest, k, p.idx, q);
      } else {
        assert !Visited(|a|, oldest, k, p.idx, q);
      }
    }
  }

  /** Records nobody reads need no dealing with. */
  lemma SweepSkips(a: View, v: View, oldest: nat, sec: nat, j: nat, n: nat)
    requires oldest < |a| && sec < |a| && Sweep(a, v, oldest, Dist(oldest, |a|, sec), j) && j <= n <= |v[sec].recs|
    requires forall i :: j <= i < n ==> !Visible(v[sec].recs[i])
    ensures Sweep(a, v, oldest, Dist(oldest, |a|, sec), n)
  {
    var k := Dist(oldest, |a|, sec);
    forall q: Pos | IsRec(v, q.sec, q.idx)
      ensures if IsRec(a, q.sec, q.idx) && !Visited(|a|, oldest, k, n, q) then
                  RecAt(v, q) in {RecAt(a, q), Marked(RecAt(a, q))}
              else AtRest(RecAt(v, q))
    {
      if Visited(|a|, oldest, k, n, q) && !Visited(|a|, oldest, k, j, q) {
        SameDist(oldest, |a|, sec, q.sec);
        assert AtRest(v[sec].recs[q.idx]);
      }
    }
  }

  /** A sector read to its end. */
  lemma SweepNext(a: View, v: View, oldest: nat, sec: nat)
    requires oldest < |a| == |v| && sec < |a| && Sweep(a, v, oldest, Dist(oldest, |a|, sec), |v[sec].recs|)
    ensures Sweep(a, v, oldest, Dist(oldest, |a|, sec) + 1, 0)
  {
    hide AtRest, Marked;
    var k := Dist(oldest, |a|, sec);
    forall q: Pos | IsRec(v, q.sec, q.idx)
      ensures if IsRec(a, q.sec, q.idx) && !Visited(|a|, oldest, k + 1, 0, q) then
                  RecAt(v, q) in {RecAt(a, q), Marked(RecAt(a, q))}
              else AtRest(RecAt(v, q))
    {
      SameDist(oldest, |a|, sec, q.sec);
    }
  }

  /** The walk has gone round: nothing is left half done. */
  lemma SweepDone(a: View, v: View, oldest: nat)
    requires Sweep(a, v, oldest, |a|, 0) && Booting(v) && Sane(v)
    ensures Resting(v, -1)
  {
    hide AtRest, Marked;
    forall i | 0 <= i < |v| ensures RestSector(v[i], i == -1) {
      forall j | 0 <= j < |v[i].recs| ensures AtRest(v[i].recs[j]) {
        assert RecAt(v, Pos(i, j)) == v[i].recs[j];
      }
    }
  }

  lemma BootingKept(a: View, b: View)
    requires Booting(a) && HeadersKept(a, b)
    ensures Booting(b)
  {
  }

  lemma MarksKeepHeaders(a: View, b: View)
    requires MarkedFrom(a, b)
    ensures HeadersKept(a, b) && Empties(b) == Empties(a)
  {
    forall i | 0 <= i < |a| ensures b[i].store == a[i].store && b[i].dirt == a[i].dirt && |b[i].recs| == |a[i].recs| {
      MarkedFromSame(a, b, i);
    }
  }

  /** What a boot restores is what a search finds once everything is at rest. */
  lemma Restored(a: View, v: View)
    requires Resting(v, -1) && SameMap(a, v)
    ensures forall k :: Stored(v, k) == Recovered(a, k)
  {
    hide Lookup;
    RestingNoPreDelete(v, -1);
    assert forall k :: Recovered(a, k) == Recovered(v, k);
  }

  // ----- one record -----

  /** What the callback of the pass learns of a record that was just read. */
  lemma BootRead(kv: KvInfo, m: View, sec: nat, j: nat)
    requires IsRec(m, sec, j) && RecShape(m[sec].recs[j]) && Visible(m[sec].recs[j]) && Reports(kv, sec, m[sec].recs[j])
    requires Marked(m[sec].recs[j]) == m[sec].recs[j]
    ensures Locates(kv, sec, m[sec].recs[j]) && kv.start == Addr(sec, m[sec].recs[j].off)
    ensures kv.crcOk && kv.status == PreDelete ==> At(m, Pos(sec, j), PreDelete, kv.name) && m[sec].recs[j].Complete()
    ensures kv.crcOk && kv.status == Write ==> At(m, Pos(sec, j), Write, kv.name)
    ensures kv.status == PreWrite <==> CutShort(m[sec].recs[j])
    ensures !(kv.crcOk && kv.status == PreDelete) && kv.status != PreWrite ==> AtRest(RecAt(m, Pos(sec, j)))
    ensures (kv.crcOk && kv.status == PreDelete) || kv.status == PreWrite ==> Pos(sec, j) in Pending(m)
  {
    var r := m[sec].recs[j];
    PendingIs(m, Pos(sec, j));
    if r.Complete() {
      CompleteIsGood(r);
    }
  }

  lemma MarksShrink(a: View, m: View)
    requires MarkedFrom(a, m)
    ensures Pending(m) <= Pending(a)
  {
    forall q | q in Pending(m) ensures q in Pending(a) {
      PendingIs(m, q);
      PendingIs(a, q);
      MarkedFromSame(a, m, q.sec);
      MarkedRests(RecAt(a, q));
    }
  }

  lemma CutParts(m: View, sec: nat, j: nat)
    requires IsRec(m, sec, j) && CutShort(m[sec].recs[j])
    ensures m[sec].recs[j].status == PreWrite && m[sec].recs[j].written >= KV_HDR
  {
  }

  /** A mark is set on header-less records only. */
  lemma MarkNotCut(a: View, sec: nat, j: nat)
    requires IsRec(a, sec, j)
    ensures CutShort(RecAt(a, Pos(sec, j))) <==> CutShort(RecAt(MarkRec(a, sec, j), Pos(sec, j)))
  {
    MarkRecIs(a, sec, j);
  }

  /** The store after one turn of the pass over record `j` of sector `sec`. */
  ghost predicate Turned(a: View, b: View, sec: nat, j: nat) {
    && Dealt(a, b, Pos(sec, j)) && HeadersKept(a, b) && ReserveKept(a, b)
    && IsRec(a, sec, j) && IsRec(b, sec, j) && b[sec].recs[j].off == a[sec].recs[j].off && Visible(b[sec].recs[j])
    && (a[sec].store == Using ==> b[sec].store == Using)
    && (b == a || Pending(b) < Pending(a))
  }

  /** Nothing to do for this record, apart from a mark its reader set. */
  lemma TurnedMarked(a: View, m: View, sec: nat, j: nat)
    requires IsRec(a, sec, j) && Visible(a[sec].recs[j]) && m == MarkRec(a, sec, j) && MarkedFrom(a, m)
    requires IsRec(m, sec, j)
    requires RecShape(a[sec].recs[j]) && AtRest(RecAt(m, Pos(sec, j)))
    ensures Turned(a, m, sec, j)
  {
    hide HeadersKept, Dealt;
    MarkRecIs(a, sec, j);
    DealtStays(m, Pos(sec, j));
    DealtAfterMarks(a, m, m, Pos(sec, j));
    MarksKeepHeaders(a, m);
    MarkedFromSame(a, m, sec);
    if m != a {
      DealtPending(a, m, Pos(sec, j));
      PendingIs(a, Pos(sec, j));
      NotMarkedYet(a[sec].recs[j]);
    }
  }

  lemma NotMarkedYet(r: Rec)
    requires RecShape(r)
    ensures Marked(r) != r ==> !AtRest(r)
  {
  }

  lemma TurnedMoved(a: View, m: View, b: View, sec: nat, j: nat, kv: KvInfo)
    requires IsRec(a, sec, j) && m == MarkRec(a, sec, j) && MarkedFrom(a, m) && IsRec(m, sec, j)
    requires RecShape(m[sec].recs[j]) && m[sec].recs[j].Complete()
    requires Pos(sec, j) in Pending(m) && Locates(kv, sec, m[sec].recs[j])
    requires Settles(m, b, Pos(sec, j)) && HeadersKept(m, b) && ReserveKept(m, b)
    ensures Turned(a, b, sec, j) && RecShape(b[sec].recs[j]) && Locates(kv, sec, b[sec].recs[j])
  {
    hide RecShape, Locates, AtRest;
    var p := Pos(sec, j);
    SettledDealt(m, b, p);
    DealtAfterMarks(a, m, b, p);
    DealtPending(m, b, p);
    MarksShrink(a, m);
    MarksKeepHeaders(a, m);
    HeadersTrans(a, m, b);
    MarkRecIs(a, sec, j);
    CompleteLocated(kv, sec, m[sec].recs[j], Deleted);
    assert b[sec].recs[j] == RecAt(b, p) == WithStatus(RecAt(m, p), Deleted);
  }

  lemma HeadersTrans(a: View, b: View, c: View)
    requires HeadersKept(a, b) && HeadersKept(b, c)
    ensures HeadersKept(a, c)
  {
  }

  lemma TurnedError(a: View, m: View, sec: nat, j: nat)
    requires IsRec(a, sec, j) && m == MarkRec(a, sec, j) && MarkedFrom(a, m) && IsRec(m, sec, j)
    requires Visible(m[sec].recs[j]) && Pos(sec, j) in Pending(m)
    ensures var b := m[sec := SetRecStatus(m[sec], j, ErrHdr)];
            Turned(a, b, sec, j) && Pending(b) < Pending(a)
  {
    hide AtRest, Dealt, MarkedFrom;
    var b := m[sec := SetRecStatus(m[sec], j, ErrHdr)];
    ErrorDealt(m, Pos(sec, j));
    DealtAfterMarks(a, m, b, Pos(sec, j));
    DealtPending(m, b, Pos(sec, j));
    MarksShrink(a, m);
    MarksKeepHeaders(a, m);
    ErrorHeaders(m, sec, j);
    HeadersTrans(a, m, b);
    MarkRecIs(a, sec, j);
  }

  lemma ErrorHeaders(m: View, sec: nat, j: nat)
    requires IsRec(m, sec, j)
    ensures var b := m[sec := SetRecStatus(m[sec], j, ErrHdr)]; HeadersKept(m, b) && Empties(b) == Empties(m)
  {
  }

  /** The error mark on a record that never counted leaves the map alone. */
  lemma ErrorSame(a: View, sec: nat, j: nat)
    requires IsRec(a, sec, j) && a[sec].recs[j].status == PreWrite
    ensures SameRecords(a, a[sec := SetRecStatus(a[sec], j, ErrHdr)])
  {
  }

  lemma ReadTrace(t0: seq<View>, t1: seq<View>, a: View, m: View)
    requires Sane(a) && MarkedFrom(a, m) && t1 == t0 + (if m == a then [] else [m])
    ensures Sane(m) && SameMap(a, m) && Extends(t0, t1) && AllSame(t1, |t0|, a)
  {
    hide Sane, SameMap, MarkedFrom;
    MarksSameMap(a, m);
  }

  lemma OnceMarked(a: View, sec: nat, j: nat)
    requires IsRec(a, sec, j)
    ensures var m := MarkRec(a, sec, j); IsRec(m, sec, j) && Marked(m[sec].recs[j]) == m[sec].recs[j]
  {
    MarkRecIs(a, sec, j);
    MarkedRests(a[sec].recs[j]);
  }

  lemma NoRecords(secs: View, size: nat, sec: nat)
    requires Shaped(secs, size) && sec < |secs| && secs[sec].store != Using
    ensures |secs[sec].recs| == 0
  {
    assert SectorShape(secs[sec], size);
  }

  // ----- sector headers at boot -----

  ghost predicate FormattedUpTo(a: View, b: View, oldest: nat, k: nat) {
    oldest < |a| == |b| && forall i :: 0 <= i < |a| ==>
      b[i] == if a[i].store == StoreUnused && Dist(oldest, |a|, i) < k then EMPTY_SECTOR else a[i]
  }

  lemma FormattedStep(a: View, b: View, oldest: nat, sec: nat)
    requires sec < |a| && oldest < |a| && FormattedUpTo(a, b, oldest, Dist(oldest, |a|, sec))
    ensures var c := if a[sec].store == StoreUnused then b[sec := EMPTY_SECTOR] else b;
            FormattedUpTo(a, c, oldest, Dist(oldest, |a|, sec) + 1) && b[sec] == a[sec]
  {
    forall i | 0 <= i < |a| && Dist(oldest, |a|, i) == Dist(oldest, |a|, sec) ensures i == sec {
      SameDist(oldest, |a|, sec, i);
    }
  }

  lemma ErasedIs(secs: View, size: nat, i: nat)
    requires Shaped(secs, size) && i < |secs|
    ensures secs[i].store == StoreUnused ==> secs[i] == ERASED_SECTOR
    ensures secs[i].store == Empty ==> secs[i] == EMPTY_SECTOR
  {
    assert SectorShape(secs[i], size);
  }

  lemma FormattedBoots(a: View, b: View, size: nat, oldest: nat)
    requires Bootable(a) && Shaped(a, size) && oldest < |a| && FormattedUpTo(a, b, oldest, |a|)
    ensures Booting(b) && Empties(b) != {}
  {
    var i :| 0 <= i < |a| && a[i].store in {StoreUnused, Empty};
    assert i in Empties(b);
    forall j | 0 <= j < |b| ensures b[j].store in {Empty, Using} && b[j].dirt in {Clean, Dirty} {
      assert SectorShape(a[j], size);
    }
  }

  lemma FormattedCut(a: View, b: View, size: nat, oldest: nat, k: nat)
    requires Shaped(a, size) && FormattedUpTo(a, b, oldest, k)
    ensures AnyCut(a) <==> AnyCut(b)
  {
    forall q: Pos ensures RecAt(a, q) == RecAt(b, q) && IsRec(a, q.sec, q.idx) == IsRec(b, q.sec, q.idx) {
      if q.sec < |a| {
        ErasedIs(a, size, q.sec);
      }
    }
  }

  /** Formatting an erased sector: two writes, the map untouched. */
  lemma FormatErased(t0: seq<View>, t1: seq<View>, t2: seq<View>, base: View, v: View, size: nat, sec: nat)
    requires Shaped(v, size) && sec < |v| && v[sec].recs == [] && Sane(v) && SameMap(base, v)
    requires Extends(t0, t1) && AllSame(t1, |t0|, base) && t2 == t1 + [v[sec := ERASED_SECTOR], v[sec := EMPTY_SECTOR]]
    ensures var w := v[sec := EMPTY_SECTOR];
            Sane(w) && SameMap(base, w) && Extends(t0, t2) && AllSame(t2, |t0|, base) && Pending(w) == Pending(v)
  {
    hide Sane, SameMap, AllSame, AtRest, SameRecords;
    var x, w := v[sec := ERASED_SECTOR], v[sec := EMPTY_SECTOR];
    HeaderChangeSame(v, sec, ERASED_SECTOR);
    HeaderChangeSame(v, sec, EMPTY_SECTOR);
    SameRecordsSameMap(v, x);
    SameRecordsSameMap(v, w);
    SameMapTrans(base, v, x);
    SameMapTrans(base, v, w);
    AllSameOne(t1, t1 + [x], |t0|, base, x);
    AllSameOne(t1 + [x], t2, |t0|, base, w);
    forall q ensures q in Pending(w) <==> q in Pending(v) {
      PendingIs(w, q);
      PendingIs(v, q);
    }
  }

  lemma NoMoreErased(a: View, b: View, oldest: nat)
    requires oldest < |a| && FormattedUpTo(a, b, oldest, |a|) && |WithStore(a, StoreUnused)| == |a|
    ensures forall i :: 0 <= i < |b| ==> b[i] == EMPTY_SECTOR
  {
    AllOfThem(a);
  }

  ghost function ErasedBelow(a: View, n: nat): set<nat>
    requires n <= |a|
  {
    set i | 0 <= i < n && a[i].store == StoreUnused
  }

  /** As many erased sectors as there are sectors means all of them. */
  lemma AllOfThem(a: View)
    requires |WithStore(a, StoreUnused)| == |a|
    ensures forall i :: 0 <= i < |a| ==> a[i].store == StoreUnused
  {
    assert ErasedBelow(a, |a|) == WithStore(a, StoreUnused);
    ErasedCount(a, |a|);
  }

  lemma ErasedStep(a: View, n: nat)
    requires 0 < n <= |a|
    ensures ErasedBelow(a, n) == if a[n - 1].store == StoreUnused then ErasedBelow(a, n - 1) + {n - 1}
                else ErasedBelow(a, n - 1)
  {
  }

  lemma {:induction false} ErasedCount(a: View, n: nat)
    requires n <= |a|
    ensures |ErasedBelow(a, n)| <= n
    ensures |ErasedBelow(a, n)| == n ==> forall i :: 0 <= i < n ==> a[i].store == StoreUnused
  {
    if n > 0 {
      ErasedCount(a, n - 1);
      ErasedStep(a, n);
    } else {
      assert ErasedBelow(a, 0) == {};
    }
  }

  lemma RecoveredSame(a: View, b: View)
    requires SameMap(a, b)
    ensures forall k :: Recovered(a, k) == Recovered(b, k)
  {
  }

  lemma FormattedNone(a: View, oldest: nat)
    requires oldest < |a|
    ensures FormattedUpTo(a, a, oldest, 0)
  {
  }

  // ----- what recovery does to the half-deleted records and to the room for them -----

  ghost function Halves(a: View): set<Pos> {
    set i: nat, j: nat | i < |a| && j < |a[i].recs| && a[i].recs[j].status == PreDelete &&
    a[i].recs[j].Complete() :: Pos(i, j)
  }

  lemma HalvesIs(a: View, p: Pos)
    ensures p in Halves(a) <==> IsRec(a, p.sec, p.idx) && RecAt(a, p).status == PreDelete && RecAt(a, p).Complete()
    ensures p in Halves(a) <==> exists k :: At(a, p, PreDelete, k)
  {
    if p in Halves(a) {
      assert At(a, p, PreDelete, RecAt(a, p).key);
    }
  }

  /** Sectors that are empty, or will be once their header is written. */
  ghost function Reserve(a: View): set<nat> {
    set i | 0 <= i < |a| && a[i].store in {StoreUnused, Empty}
  }

  /** Half-deleted records go, none comes. */
  ghost predicate HalfShrinks(a: View, b: View) {
    forall p, k :: At(b, p, PreDelete, k) ==> At(a, p, PreDelete, k) && ValueAt(b, p) == ValueAt(a, p)
  }

  /** As long as a key has a half-deleted record, nothing new is stored for it. */
  ghost predicate HalfStay(a: View, b: View) {
    forall k :: Lookup(b, PreDelete, k).Some? ==> Lookup(a, PreDelete, k).Some? && Stored(b, k) == Stored(a, k)
  }

  /** For each empty sector spent one half-deleted record is gone. */
  ghost predicate SlackKept(a: View, b: View) {
    |Reserve(b)| + |Halves(a)| >= |Reserve(a)| + |Halves(b)|
  }

  ghost predicate Progress(a: View, b: View) {
    LagKept(a, b) && HalfShrinks(a, b) && HalfStay(a, b) && SlackKept(a, b)
  }

  /** Every half-deleted record can be moved anywhere, and power can be cut while it is. */
  ghost predicate Resumable(a: View) {
    HalfFirm(a) && HalfTame(a)
  }

  lemma ProgressSelf(a: View)
    ensures Progress(a, a)
  {
    hide Lag, Lookup, Reserve, Halves, At;
  }

  lemma ProgressTrans(a: View, b: View, c: View)
    requires Progress(a, b) && Progress(b, c)
    ensures Progress(a, c)
  {
    hide Lag, Lookup, Reserve, Halves, At, ValueAt;
  }

  lemma ProgressFit(a: View, b: View)
    requires Progress(a, b)
    ensures (Placeable(a) ==> Placeable(b)) && (HalfFirm(a) ==> HalfFirm(b)) && (Resumable(a) ==> Resumable(b))
  {
    hide Lag, Lookup, Reserve, Halves, At, ValueAt, Solid, HalfStay, Tame, AllEven, LagKept;
    if AllEven(a) {
      EvenStays(a, b);
    }
    if HalfTame(a) {
      forall p, k | At(b, p, PreDelete, k) ensures Tame(b, k, ValueAt(b, p)) {
        TameKept(a, b, k, ValueAt(a, p));
      }
    }
  }

  lemma HalvesShrink(a: View, b: View)
    requires HalfShrinks(a, b)
    ensures Halves(b) <= Halves(a) && |Halves(b)| <= |Halves(a)|
  {
    hide At, Halves, ValueAt;
    forall p | p in Halves(b) ensures p in Halves(a) {
      HalvesIs(a, p);
      HalvesIs(b, p);
    }
    Subset(Halves(b), Halves(a));
  }

  lemma Subset<T>(s: set<T>, t: set<T>)
    requires s <= t
    ensures |s| <= |t|
  {
    assert t == s + (t - s);
  }

  /** The same complete records, the same room. */
  lemma ProgressSame(a: View, b: View)
    requires Sane(a) && SameRecords(a, b) && LagKept(a, b) && Reserve(b) == Reserve(a)
    ensures Progress(a, b)
  {
    hide Lag, Reserve, Halves, At, ValueAt, LagKept, Sane, Lookup;
    SameRecordsSameMap(a, b);
    HalvesShrink(a, b);
  }

  lemma ProgressMarked(a: View, b: View)
    requires MarkedFrom(a, b) && Sane(a) && Settled(a) && Exact(a)
    ensures Progress(a, b)
  {
    hide Settled, Exact, LagKept, Sane, SameRecords, MarkedFrom;
    MarkedFit(a, b);
    MarksSameMap(a, b);
    MarkedHeaders(a, b);
    assert Reserve(b) == Reserve(a);
    ProgressSame(a, b);
  }

  lemma BootingReserve(a: View)
    requires Booting(a)
    ensures Reserve(a) == Empties(a) && NoGc(a)
  {
  }

  /** A half-deleted record was moved or dropped. */
  lemma ProgressMoved(a: View, b: View, p: Pos, key: Key)
    requires Sane(a) && Sane(b) && At(a, p, PreDelete, key) && Settles(a, b, p) && Booting(a) && Booting(b)
    requires |Empties(b)| + 1 >= |Empties(a)| && LagKept(a, b) && forall k :: k != key ==> Stored(b, k) == Stored(a, k)
    ensures Progress(a, b)
  {
    hide LagKept, Booting, Empties, Halves, Reserve;
    BootingReserve(a);
    BootingReserve(b);
    SettledHalves(a, b, p);
    HalvesShrink(a, b);
    assert Halves(b) <= Halves(a) - {p} by {
      HalvesIs(b, p);
    }
    HalvesIs(a, p);
    Subset(Halves(b), Halves(a) - {p});
    forall k | Lookup(b, PreDelete, k).Some? ensures Lookup(a, PreDelete, k).Some? && Stored(b, k) == Stored(a, k) {
      HalfOther(a, b, p, key, k);
    }
  }

  lemma SettledHalves(a: View, b: View, p: Pos)
    requires Settles(a, b, p)
    ensures HalfShrinks(a, b) && forall k :: !At(b, p, PreDelete, k)
  {
    forall q, k | At(b, q, PreDelete, k) ensures At(a, q, PreDelete, k) && ValueAt(b, q) == ValueAt(a, q) {
      assert q != p;
      assert RecAt(b, q).status == PreDelete;
    }
  }

  lemma HalfOther(a: View, b: View, p: Pos, key: Key, k: Key)
    requires Sane(a) && At(a, p, PreDelete, key) && HalfShrinks(a, b) && (forall k :: !At(b, p, PreDelete, k))
    requires Lookup(b, PreDelete, k).Some?
    ensures k != key && Lookup(a, PreDelete, k).Some?
  {
    hide At, ValueAt;
    var q := LookupSome(b, PreDelete, k);
    assert At(a, q, PreDelete, k);
  }

  lemma ProgressError(m: View, sec: nat, j: nat)
    requires Sane(m) && IsRec(m, sec, j) && m[sec].recs[j].status == PreWrite
    ensures Progress(m, m[sec := SetRecStatus(m[sec], j, ErrHdr)])
  {
    hide Lag, Sane, SameRecords;
    var b := m[sec := SetRecStatus(m[sec], j, ErrHdr)];
    StatusLag(m[sec], j, ErrHdr);
    ErrorSame(m, sec, j);
    assert forall i :: 0 <= i < |m| ==> b[i].store == m[i].store;
    assert Reserve(b) == Reserve(m);
    ProgressSame(m, b);
  }

  lemma ProgressFormat(v: View, sec: nat)
    requires Sane(v) && sec < |v| && v[sec].recs == [] && v[sec].store in {StoreUnused, Empty}
    ensures Progress(v, v[sec := EMPTY_SECTOR])
  {
    hide Lag, Sane, SameRecords;
    var b := v[sec := EMPTY_SECTOR];
    EmptyExact();
    HeaderChangeSame(v, sec, EMPTY_SECTOR);
    assert forall i :: 0 <= i < |v| ==> (b[i].store in {StoreUnused, Empty} <==> v[i].store in {StoreUnused, Empty});
    assert Reserve(b) == Reserve(v);
    ProgressSame(v, b);
  }

  // ----- when recovery finds no room -----

  /** The half-deleted record at `p` finds no room. */
  ghost predicate StuckAt(a: View, size: nat, p: Pos) {
    (exists k :: At(a, p, PreDelete, k)) && NoChoice(a, size, RecAt(a, p).Len(), false)
  }

  /** Any stored record fits an empty sector, so no more than one of them is left. */
  lemma StuckLow(a: View, size: nat, p: Pos)
    requires Shaped(a, size) && StuckAt(a, size, p)
    ensures |Empties(a)| <= 1 && p in Halves(a)
  {
    hide Shaped, Fits;
    HalvesIs(a, p);
    if |Empties(a)| > 1 {
      var e :| e in Empties(a);
      EmptyTakes(a, size, e, p);
    }
  }

  /** There is exactly one, so the allocator has asked for a collection. */
  lemma StuckReserve(a: View, size: nat, p: Pos)
    requires Shaped(a, size) && StuckAt(a, size, p) && Empties(a) != {}
    ensures |Empties(a)| == 1
  {
    StuckLow(a, size, p);
  }

  lemma EmptyTakes(a: View, size: nat, e: nat, p: Pos)
    requires Shaped(a, size) && e < |a| && a[e].store == Empty && IsRec(a, p.sec, p.idx) && RecAt(a, p).Complete()
    ensures Fits(a[e], size, RecAt(a, p).Len(), false)
  {
    hide RecShape;
    ShapedShape(a, size, p.sec, p.idx);
    assert SectorShape(a[p.sec], size) && SectorShape(a[e], size);
    SomeBytes(RecAt(a, p));
  }

  /** With more empty sectors than half-deleted records, recovery never runs out of room. */
  lemma RoomForAll(a: View, v: View, size: nat, p: Pos)
    requires Progress(a, v) && Booting(v) && Shaped(v, size) && StuckAt(v, size, p)
    ensures |Reserve(a)| <= |Halves(a)| && p in Halves(a)
  {
    hide LagKept, HalfStay, Shaped, StuckAt, Empties, Halves, Reserve, At;
    StuckLow(v, size, p);
    BootingReserve(v);
    HalvesShrink(a, v);
    Subset({p}, Halves(v));
  }

  lemma StuckMarked(a: View, m: View, size: nat, p: Pos, key: Key)
    requires MarkedFrom(a, m) && At(a, p, PreDelete, key) && IsRec(a, p.sec, p.idx)
    ensures NoChoice(a, size, RecAt(a, p).Len(), false) <==> NoChoice(m, size, RecAt(a, p).Len(), false)
    ensures NoChoice(m, size, RecAt(a, p).Len(), false) ==> StuckAt(m, size, p)
  {
    hide MarkedFrom, Fits;
    MarkedAt(a, m, p, PreDelete, key);
    MarkedHeaders(a, m);
    var len := RecAt(a, p).Len();
    forall i | 0 <= i < |a| ensures m[i].store == a[i].store &&
        Fits(m[i], size, len, false) == Fits(a[i], size, len, false) {
      MarkedFromFits(a, m, i, size, len, false);
    }
    assert Empties(m) == Empties(a);
  }

  // ----- points of power loss during recovery -----

  lemma BootGuarded(a: View)
    requires Settled(a) && Exact(a) && Booting(a) && Empties(a) != {} && HalfFirm(a)
    ensures Guarded(a)
  {
    hide Settled, Exact;
  }

  lemma ErrorGuarded(m: View, sec: nat, j: nat)
    requires Guarded(m) && Sane(m) && IsRec(m, sec, j) && m[sec].recs[j].status == PreWrite
    requires m[sec].recs[j].written >= KV_HDR
    ensures Guarded(m[sec := SetRecStatus(m[sec], j, ErrHdr)])
  {
    hide SectorSettled, SectorExact, HalfFirm, SameRecords;
    var b := m[sec := SetRecStatus(m[sec], j, ErrHdr)];
    ErrorKeepsSector(m[sec], j);
    ErrorSame(m, sec, j);
    HalfSame(m, b);
    ErrorHeaders(m, sec, j);
    forall i | 0 <= i < |m| ensures b[i].store == m[i].store && b[i].dirt == m[i].dirt {}
  }

  /** Formatting a faulty sector at boot. */
  lemma FormatBoots(t1: seq<View>, t2: seq<View>, v: View, sec: nat)
    requires Settled(v) && Exact(v) && Bootable(v) && sec < |v| && v[sec].recs == []
    requires t2 == t1 + [v[sec := ERASED_SECTOR], v[sec := EMPTY_SECTOR]]
    ensures Bootable(v[sec := EMPTY_SECTOR])
    ensures HalfFirm(v) ==> AllRestart(t2, |t1|, false)
  {
    hide Settled, Exact, HalfFirm, Restart;
    BlankBoots(v, sec, ERASED_SECTOR);
    BlankBoots(v, sec, EMPTY_SECTOR);
    if HalfFirm(v) {
      FitRestarts(v[sec := ERASED_SECTOR]);
      FitRestarts(v[sec := EMPTY_SECTOR]);
    }
    assert t2[|t1|] == v[sec := ERASED_SECTOR] && t2[|t1| + 1] == v[sec := EMPTY_SECTOR];
  }

  lemma BlankBoots(v: View, sec: nat, s: Sector)
    requires Settled(v) && Exact(v) && Bootable(v) && sec < |v| && v[sec].recs == []
    requires s in {ERASED_SECTOR, EMPTY_SECTOR}
    ensures var w := v[sec := s]; Settled(w) && Exact(w) && Bootable(w) && (HalfFirm(v) ==> HalfFirm(w))
  {
    hide SectorSettled, SectorExact, HalfFirm, SameRecords;
    var w := v[sec := s];
    EmptyFits();
    HeaderChangeSame(v, sec, s);
    HalfSame(v, w);
    assert w[sec].store in {StoreUnused, Empty};
  }

  /** Some sectors of `a` erased or formatted. */
  ghost predicate Wiped(a: View, v: View) {
    |v| == |a| && forall i :: 0 <= i < |a| ==> v[i] in {a[i], ERASED_SECTOR, EMPTY_SECTOR}
  }

  ghost predicate AllWiped(trace: seq<View>, from: nat, a: View) {
    forall t {:trigger trace[t]} :: from <= t < |trace| ==> Wiped(a, trace[t])
  }

  lemma WipedMore(t0: seq<View>, t1: seq<View>, from: nat, a: View, v: View, i: nat)
    requires AllWiped(t0, from, a) && from <= |t0| && Wiped(a, v) && i < |v|
    requires t1 == t0 + [v[i := ERASED_SECTOR], v[i := EMPTY_SECTOR]]
    ensures AllWiped(t1, from, a) && Wiped(a, v[i := EMPTY_SECTOR])
  {
  }

  /** Wiping a store without records. */
  lemma WipedEmpty(trace: seq<View>, from: nat, a: View)
    requires AllWiped(trace, from, a) && |a| > 0 && forall i :: 0 <= i < |a| ==> a[i] == EMPTY_SECTOR
    ensures AllSame(trace, from, a) && AllRestart(trace, from, false)
  {
    hide Sane, SameMap, Restart;
    forall t | from <= t < |trace| ensures Sane(trace[t]) && SameMap(a, trace[t]) && Restart(trace[t]) {
      WipedView(a, trace[t]);
    }
    AllSameIs(trace, from, a);
  }

  lemma WipedView(a: View, v: View)
    requires Wiped(a, v) && |a| > 0 && forall i :: 0 <= i < |a| ==> a[i] == EMPTY_SECTOR
    ensures Sane(a) && Sane(v) && SameMap(a, v) && Restart(v)
  {
    hide SectorSettled, SectorExact, Lookup;
    EmptyFits();
    forall i | 0 <= i < |v| ensures SectorSettled(v[i]) && SectorExact(v[i]) && v[i].recs == [] && a[i].recs == [] {}
    forall p, st, k ensures !At(v, p, st, k) && !At(a, p, st, k) {}
    forall k ensures Recovered(a, k) == Recovered(v, k) {
      LookupNone(a, Write, k);
      LookupNone(a, PreDelete, k);
      LookupNone(v, Write, k);
      LookupNone(v, PreDelete, k);
    }
    assert v[0].store in {StoreUnused, Empty};
    FitRestarts(v);
  }

  // ----- what an interrupted pass leaves -----

  /** Formatting changes no record. */
  lemma FormattedSweep(a: View, b: View, v: View, size: nat, oldest: nat, k: nat, j: nat, n: nat)
    requires Shaped(a, size) && oldest < |a| && FormattedUpTo(a, b, oldest, n) && Sweep(b, v, oldest, k, j)
    ensures Sweep(a, v, oldest, k, j)
  {
    hide AtRest, Marked;
    forall i | 0 <= i < |a| ensures b[i].recs == a[i].recs {
      ErasedIs(a, size, i);
    }
    forall q: Pos ensures RecAt(a, q) == RecAt(b, q) && IsRec(a, q.sec, q.idx) == IsRec(b, q.sec, q.idx) {}
  }

  /**
    A half-deleted record behind the point where a pass was interrupted stays half-deleted, and its key
    is not found although the next boots will bring it back.
  */
  lemma LeftForNextBoot(a: View, v: View, oldest: nat, at: Pos, p: Pos, key: Key)
    requires Sane(a) && Sane(v) && oldest < |a| && at.sec < |a|
    requires Sweep(a, v, oldest, Dist(oldest, |a|, at.sec), at.idx + 1)
    requires HalfStay(a, v) && Stored(a, key) == None
    requires At(a, p, PreDelete, key) && RecShape(RecAt(a, p))
    requires !Visited(|a|, oldest, Dist(oldest, |a|, at.sec), at.idx + 1, p)
    ensures At(v, p, PreDelete, key) && Stored(v, key) == None
    ensures Recovered(v, key) == Recovered(a, key) == Some(ValueAt(a, p))
  {
    hide Lookup;
    assert |a[p.sec].recs| <= |v[p.sec].recs|;
    assert RecAt(v, p) in {RecAt(a, p), Marked(RecAt(a, p))};
    assert At(v, p, PreDelete, key);
    LookupIs(v, PreDelete, key, p);
    LookupIs(a, PreDelete, key, p);
  }

  // ----- one record -----

  /** The mark a reader may leave. */
  lemma ReadProgress(t0: seq<View>, t1: seq<View>, a: View, m: View)
    requires MarkedFrom(a, m) && Sane(a) && Settled(a) && Exact(a) && Booting(a) && Empties(a) != {}
    requires t1 == t0 + (if m == a then [] else [m])
    ensures Progress(a, m) && Booting(m) && Empties(m) != {} && (Placeable(a) ==> Placeable(m)) && NoGc(m)
    ensures Resumable(a) ==> AllRestart(t1, |t0|, false) && Guarded(m) && Resumable(m)
  {
    hide MarkedFrom, Sane, Settled, Exact, Booting, Progress, Guarded, Resumable, Placeable, OnlyMarks, Empties, NoGc;
    ProgressMarked(a, m);
    ProgressFit(a, m);
    MarksKeepHeaders(a, m);
    BootingKept(a, m);
    BootingReserve(m);
    NothingMarked(a, t0);
    OnlyMarksMore(t0, t1, |t0|, a, a, m);
    if Resumable(a) {
      ResumableFirm(a);
      BootGuarded(a);
      MarksRestart(t1, |t0|, a);
      MarkedGuarded(a, m);
    }
  }

  lemma ResumableFirm(a: View)
    requires Resumable(a)
    ensures HalfFirm(a) && HalfTame(a)
  {
    hide HalfFirm, HalfTame;
  }

  lemma ResumableAt(a: View, p: Pos, key: Key)
    requires Resumable(a) && At(a, p, PreDelete, key)
    ensures Tame(a, key, ValueAt(a, p))
  {
    hide At, ValueAt, Solid, Tame;
  }

  /** A record reads as half-deleted exactly if it is. */
  lemma HalfRead(kv: KvInfo, a: View, m: View, sec: nat, j: nat)
    requires MarkedFrom(a, m) && IsRec(a, sec, j) && IsRec(m, sec, j) && RecShape(m[sec].recs[j])
    requires Reports(kv, sec, m[sec].recs[j])
    ensures Pos(sec, j) in Halves(a) <==> kv.crcOk && kv.status == PreDelete
    ensures kv.crcOk && kv.status == PreDelete ==>
              At(a, Pos(sec, j), PreDelete, kv.name) && At(m, Pos(sec, j), PreDelete, kv.name) &&
              kv.len == RecAt(a, Pos(sec, j)).Len()
              && RecAt(m, Pos(sec, j)) == RecAt(a, Pos(sec, j))
  {
    hide Image, CrcGood;
    var p, r := Pos(sec, j), m[sec].recs[j];
    HalvesIs(a, p);
    SomeBytes(r);
    if r.Complete() {
      CompleteIsGood(r);
    }
    assert RecAt(m, p) in {RecAt(a, p), Marked(RecAt(a, p))};
  }

  /** The move that found no room has left marks at most. */
  lemma MoveFailed(a: View, m: View, b: View, size: nat, p: Pos, key: Key)
    requires MarkedFrom(a, m) && MarkedFrom(m, b) && Sane(m) && Settled(m) && Exact(m) && Progress(a, m) && Booting(m)
    requires At(a, p, PreDelete, key) && At(m, p, PreDelete, key) && IsRec(a, p.sec, p.idx) && IsRec(m, p.sec, p.idx)
    requires RecAt(m, p) == RecAt(a, p) && NoChoice(m, size, RecAt(a, p).Len(), false)
    requires Shaped(m, size) && Empties(a) != {}
    ensures Progress(a, b) && Booting(b) && StuckAt(b, size, p) && MarkedFrom(a, b) && |Empties(b)| == |Empties(m)| == 1
  {
    hide MarkedFrom, Sane, Settled, Exact, Booting, Progress, NoChoice, StuckAt, Shaped;
    MarkedFromTrans(a, m, b);
    StuckMarked(a, m, size, p, key);
    MarkedHeaders(a, m);
    MarkedHeaders(m, b);
    assert Empties(m) == Empties(a) && Empties(b) == Empties(m);
    StuckReserve(m, size, p);
    ProgressMarked(m, b);
    ProgressTrans(a, m, b);
    MarksKeepHeaders(m, b);
    BootingKept(m, b);
    StuckMarked(m, b, size, p, key);
  }

  lemma ErrorRestarts(t0: seq<View>, t1: seq<View>, from: nat, m: View, sec: nat, j: nat)
    requires AllRestart(t0, from, false) && from <= |t0| && Guarded(m) && NoGc(m) && Sane(m) && IsRec(m, sec, j)
    requires m[sec].recs[j].status == PreWrite && m[sec].recs[j].written >= KV_HDR
    requires t1 == t0 + [m[sec := SetRecStatus(m[sec], j, ErrHdr)]]
    ensures AllRestart(t1, from, false)
  {
    hide Guarded, Sane, AllRestart, Restart, NoGc;
    var b := m[sec := SetRecStatus(m[sec], j, ErrHdr)];
    ErrorGuarded(m, sec, j);
    ErrorMarks(m, sec, j);
    GuardedRestarts(b);
    RestartOne(t0, t1, from, b, false);
  }

  lemma ErrorMarks(m: View, sec: nat, j: nat)
    requires IsRec(m, sec, j) && NoGc(m)
    ensures NoGc(m[sec := SetRecStatus(m[sec], j, ErrHdr)])
  {
  }

  lemma AllEmptyUncut(b: View)
    requires forall i :: 0 <= i < |b| ==> b[i] == EMPTY_SECTOR
    ensures !AnyCut(b)
  {
  }

  lemma FormattedAt(a: View, b: View, size: nat, oldest: nat, n: nat, q: Pos)
    requires Shaped(a, size) && FormattedUpTo(a, b, oldest, n)
    ensures |a| == |b| && RecAt(a, q) == RecAt(b, q) && IsRec(a, q.sec, q.idx) == IsRec(b, q.sec, q.idx)
  {
    if q.sec < |a| {
      ErasedIs(a, size, q.sec);
    }
  }

  /** Room that suffices at the start suffices after an interrupted boot. */
  lemma ProgressRoom(a: View, b: View, p: Pos)
    requires Progress(a, b)
    ensures |Reserve(a)| > |Halves(a)| ==> |Reserve(b)| > |Halves(b)|
    ensures p in Halves(b) ==> p in Halves(a)
  {
    hide LagKept, HalfStay, Reserve, Halves;
    HalvesShrink(a, b);
  }

  // ----- a new device -----

  ghost predicate AllUnused(a: View) {
    forall i :: 0 <= i < |a| ==> a[i].store == StoreUnused
  }

  ghost predicate AllEmpty(a: View) {
    forall i :: 0 <= i < |a| ==> a[i] == EMPTY_SECTOR
  }

  /** A header passes the check exactly if the view has it as sound. */
  lemma KnownStore(mem: Memory, a: View, size: nat)
    requires Faithful(mem, a, size) && size >= SECTOR_HDR
    ensures |mem| == |a| && forall i :: 0 <= i < |a| ==> (KnownHeader(mem[i]) <==> a[i].store != StoreUnused)
  {
    hide Holds, U32, FromU32, KnownHeader, SoundHeader;
    forall i | 0 <= i < |a| ensures KnownHeader(mem[i]) <==> a[i].store != StoreUnused {
      assert SectorBytes(mem[i], a[i]) && SectorShape(a[i], size);
      SoundHeaderBytes(mem[i]);
      if a[i].store != StoreUnused {
        WrittenIsSound(mem[i], a[i]);
      }
    }
  }

  lemma WrittenIsSound(b: seq<byte>, s: Sector)
    requires |b| >= SECTOR_HDR && b[..SECTOR_HDR] == SectorHeader(s.store, s.dirt)
    ensures SoundHeader(b)
  {
    hide U32, FromU32;
    HeaderWords();
    var h := SectorHeader(s.store, s.dirt);
    assert b[4..8] == h[4..8] == U32(SECTOR_MAGIC);
    assert b[8..12] == h[8..12] == [0xFF, 0xFF, 0xFF, 0xFF];
  }

  /** At every point since `from` a sector of `a` with a sound header is as it was. */
  ghost predicate SoundKept(trace: seq<View>, from: nat, a: View) {
    forall t {:trigger trace[t]} :: from <= t < |trace| ==> SoundAsBefore(a, trace[t])
  }

  ghost predicate SoundAsBefore(a: View, v: View) {
    |v| == |a| && forall i :: 0 <= i < |a| && a[i].store != StoreUnused ==> v[i] == a[i]
  }

  lemma SoundNone(trace: seq<View>, a: View)
    ensures SoundKept(trace, |trace|, a) && SoundAsBefore(a, a)
  {
  }

  lemma SoundFormat(t0: seq<View>, t1: seq<View>, from: nat, a: View, v: View, sec: nat)
    requires from <= |t0| && SoundKept(t0, from, a) && SoundAsBefore(a, v) && sec < |a| && a[sec].store == StoreUnused
    requires t1 == t0 + [v[sec := ERASED_SECTOR], v[sec := EMPTY_SECTOR]]
    ensures SoundKept(t1, from, a) && SoundAsBefore(a, v[sec := EMPTY_SECTOR])
  {
    forall t | from <= t < |t1| ensures SoundAsBefore(a, t1[t]) {
      if t < |t0| {
        assert t1[t] == t0[t];
      }
    }
  }

  lemma SoundWiped(t0: seq<View>, t1: seq<View>, from: nat, a: View, b: View)
    requires from <= |t0| && SoundKept(t0, from, a) && |t0| <= |t1| && t1[..|t0|] == t0 && AllWiped(t1, |t0|, b)
    requires |b| == |a| && forall i :: 0 <= i < |a| ==> a[i].store == StoreUnused
    ensures SoundKept(t1, from, a)
  {
    forall t | from <= t < |t1| ensures SoundAsBefore(a, t1[t]) {
      if t < |t0| {
        assert t1[..|t0|][t] == t0[t];
      } else {
        assert Wiped(b, t1[t]);
      }
    }
  }

  lemma AllFailed(a: View)
    requires |WithStore(a, StoreUnused)| == |a|
    ensures forall i :: 0 <= i < |a| ==> a[i].store == StoreUnused
  {
    var s := WithStore(a, StoreUnused);
    forall i | 0 <= i < |a| ensures a[i].store == StoreUnused {
      if a[i].store != StoreUnused {
        FewerThan(s, |a|, i);
      }
    }
  }

  lemma FewerThan(s: set<nat>, n: nat, i: nat)
    requires i < n && i !in s && forall j :: j in s ==> j < n
    ensures |s| < n
  {
    if n == i + 1 {
      AtMost(s, i);
    } else if n - 1 in s {
      FewerThan(s - {n - 1}, n - 1, i);
    } else {
      AtMost(s, n - 1);
    }
  }

  lemma AtMost(s: set<nat>, n: nat)
    requires forall j :: j in s ==> j < n
    ensures |s| <= n
  {
    if n == 0 {
      assert s == {};
    } else {
      AtMost(s - {n - 1}, n - 1);
    }
  }

  /** No sector has lost a record. */
  ghost predicate Grown(a: View, b: View) {
    |a| == |b| && forall i :: 0 <= i < |a| ==> |a[i].recs| <= |b[i].recs|
  }

  lemma GrownMarks(a: View, v: View, w: View)
    requires Grown(a, v) && MarkedFrom(v, w)
    ensures Grown(a, w)
  {
    forall i | 0 <= i < |a| ensures |a[i].recs| <= |w[i].recs| {
      MarkedFromSame(v, w, i);
    }
  }

  lemma SweepGrows(a: View, v: View, oldest: nat, k: nat, j: nat)
    requires Sweep(a, v, oldest, k, j)
    ensures Grown(a, v)
  {
  }

  /** Sectors whose header bytes pass the check are as before. */
  ghost predicate KnownKept(mem: Memory, a: View, b: View) {
    |mem| == |a| == |b| && forall i :: 0 <= i < |mem| && KnownHeader(mem[i]) ==> b[i] == a[i]
  }

  /** They have lost no record. */
  ghost predicate KnownGrown(mem: Memory, a: View, b: View) {
    |mem| == |a| == |b| && forall i :: 0 <= i < |mem| && KnownHeader(mem[i]) ==> |b[i].recs| >= |a[i].recs|
  }

  lemma KnownStays(mem: Memory, a: View, b: View, c: View, size: nat)
    requires Faithful(mem, a, size) && size >= SECTOR_HDR && SoundAsBefore(a, b)
    ensures KnownKept(mem, a, b) && (Grown(b, c) ==> KnownGrown(mem, a, c))
  {
    hide Faithful, KnownHeader;
    KnownStore(mem, a, size);
  }

  /** Every header is sound. */
  ghost predicate AllSound(a: View) {
    forall i :: 0 <= i < |a| ==> a[i].store != StoreUnused
  }

  lemma SoundStays(a: View, b: View, oldest: nat, failed: nat)
    requires a != [] && FormattedUpTo(a, b, oldest, |a|) && failed == |WithStore(a, StoreUnused)|
    ensures AllSound(a) ==> b == a && failed == 0
  {
    if AllSound(a) {
      assert WithStore(a, StoreUnused) == {};
    }
  }

  lemma UnusedFails(a: View, failed: nat)
    requires failed == |WithStore(a, StoreUnused)|
    ensures AllUnused(a) ==> failed == |a|
  {
    if AllUnused(a) {
      forall i: nat ensures i in WithStore(a, StoreUnused) <==> i < |a| {
        assert i < |a| ==> a[i].store == StoreUnused;
      }
      CountAll(WithStore(a, StoreUnused), |a|);
    }
  }

  lemma CountAll(s: set<nat>, n: nat)
    requires forall i: nat :: i in s <==> i < n
    ensures |s| == n
  {
    if n > 0 {
      CountAll(s - {n - 1}, n - 1);
    }
  }

  /** Its boot can neither be interrupted nor run out of room. */
  lemma UnusedStart(a: View, size: nat)
    requires Shaped(a, size) && AllUnused(a) && a != []
    ensures !AnyCut(a) && |Reserve(a)| > |Halves(a)|
  {
    forall i | 0 <= i < |a| ensures a[i].recs == [] {
      assert SectorShape(a[i], size);
    }
    assert Halves(a) == {};
    assert 0 in Reserve(a);
  }

  lemma EmptyRests(a: View)
    requires AllEmpty(a)
    ensures Resting(a, -1)
  {
  }

  // ----- a pass that changes nothing -----

  /** Everything a walk has reached so far is at rest. */
  ghost predicate RestUpTo(a: View, oldest: nat, k: nat, j: nat) {
    oldest < |a| &&
    forall q: Pos {:trigger RecAt(a, q)} ::
      IsRec(a, q.sec, q.idx) && Visited(|a|, oldest, k, j, q) ==> AtRest(RecAt(a, q))
  }

  /** The first record recovery has to deal with is a half-deleted one that finds no room. */
  ghost predicate FirstStuck(a: View, size: nat, oldest: nat, p: Pos) {
    oldest < |a| && p.sec < |a| && RestUpTo(a, oldest, Dist(oldest, |a|, p.sec), p.idx) && StuckAt(a, size, p)
  }

  /** If there is such a record it is that at `p`, and but for marks the store is `w`. */
  ghost predicate OnlyAt(a: View, w: View, size: nat, oldest: nat, p: Pos) {
    forall q :: FirstStuck(a, size, oldest, q) ==> q == p && MarkedFrom(a, w)
  }

  ghost predicate NeverStuck(a: View, size: nat, oldest: nat) {
    forall q :: !FirstStuck(a, size, oldest, q)
  }

  lemma FirstIsStuck(a: View, size: nat, oldest: nat, p: Pos)
    requires FirstStuck(a, size, oldest, p)
    ensures StuckAt(a, size, p)
  {
  }

  /** The walk has not got past such a record. */
  ghost predicate NonePassed(a: View, size: nat, oldest: nat, k: nat, j: nat) {
    oldest < |a| && forall p :: FirstStuck(a, size, oldest, p) ==> !Visited(|a|, oldest, k, j, p)
  }

  lemma NonePassedStarts(a: View, size: nat, oldest: nat)
    requires oldest < |a|
    ensures NonePassed(a, size, oldest, 0, 0)
  {
    hide FirstStuck;
  }

  lemma RestUnmarked(a: View, sec: nat, j: nat)
    requires IsRec(a, sec, j) && RecShape(a[sec].recs[j]) && AtRest(a[sec].recs[j])
    ensures MarkRec(a, sec, j) == a
  {
    NotMarkedYet(a[sec].recs[j]);
    assert a[sec].recs[j := a[sec].recs[j]] == a[sec].recs;
  }

  lemma RestRead(a: View, m: View, sec: nat, j: nat)
    requires IsRec(a, sec, j) && RecShape(a[sec].recs[j]) && m == MarkRec(a, sec, j)
    ensures AtRest(a[sec].recs[j]) ==> m == a && Pos(sec, j) !in Pending(m)
  {
    if AtRest(a[sec].recs[j]) {
      RestUnmarked(a, sec, j);
      PendingIs(a, Pos(sec, j));
    }
  }

  /**
    A walk at record `j` of sector `sec`: nothing has changed if there was nothing to do, and no such
    record was passed.
  */
  ghost predicate StillAt(a: View, v: View, size: nat, oldest: nat, sec: nat, j: nat) {
    oldest < |a| && sec < |a| && NonePassed(a, size, oldest, Dist(oldest, |a|, sec), j)
    && (RestUpTo(a, oldest, Dist(oldest, |a|, sec), j) ==> v == a)
  }

  lemma RestBefore(a: View, oldest: nat, sec: nat, j: nat)
    requires oldest < |a| && sec < |a| && RestUpTo(a, oldest, Dist(oldest, |a|, sec), j + 1)
    ensures RestUpTo(a, oldest, Dist(oldest, |a|, sec), j)
    ensures IsRec(a, sec, j) ==> AtRest(a[sec].recs[j])
  {
    hide AtRest;
    if IsRec(a, sec, j) {
      assert Visited(|a|, oldest, Dist(oldest, |a|, sec), j + 1, Pos(sec, j));
      assert RecAt(a, Pos(sec, j)) == a[sec].recs[j];
    }
  }

  /** One turn of the pass that is not stuck. */
  lemma StillStep(a: View, v: View, w: View, size: nat, oldest: nat, sec: nat, j: nat)
    requires StillAt(a, v, size, oldest, sec, j) && IsRec(v, sec, j)
    requires AtRest(v[sec].recs[j]) ==> w == v
    requires !(Pos(sec, j) in Halves(v) && NoChoice(v, size, RecAt(v, Pos(sec, j)).Len(), false))
    ensures StillAt(a, w, size, oldest, sec, j + 1)
  {
    hide AtRest, NoChoice, RestUpTo, Halves;
    var k, p := Dist(oldest, |a|, sec), Pos(sec, j);
    if RestUpTo(a, oldest, k, j + 1) {
      RestBefore(a, oldest, sec, j);
    }
    forall q | FirstStuck(a, size, oldest, q) ensures !Visited(|a|, oldest, k, j + 1, q) {
      if Visited(|a|, oldest, k, j + 1, q) {
        assert !Visited(|a|, oldest, k, j, q);
        SameDist(oldest, |a|, sec, q.sec);
        assert q == p;
        HalvesIs(a, p);
        assert false;
      }
    }
  }

  /** Records nobody reads are at rest. */
  lemma StillSkips(a: View, v: View, size: nat, oldest: nat, sec: nat, j: nat, n: nat)
    requires StillAt(a, v, size, oldest, sec, j) && j <= n && sec < |v|
    requires forall i :: j <= i < n && i < |v[sec].recs| ==> !Visible(v[sec].recs[i])
    ensures StillAt(a, v, size, oldest, sec, n)
  {
    hide NoChoice;
    var k := Dist(oldest, |a|, sec);
    if RestUpTo(a, oldest, k, n) {
      RestLess(a, oldest, k, n, j);
    }
    forall q | FirstStuck(a, size, oldest, q) ensures !Visited(|a|, oldest, k, n, q) {
      if Visited(|a|, oldest, k, n, q) {
        assert !Visited(|a|, oldest, k, j, q);
        SameDist(oldest, |a|, sec, q.sec);
        RestLess(a, oldest, k, q.idx, j);
        assert false;
      }
    }
  }

  lemma RestLess(a: View, oldest: nat, k: nat, n: nat, j: nat)
    requires RestUpTo(a, oldest, k, n) && j <= n
    ensures RestUpTo(a, oldest, k, j)
  {
    hide AtRest;
    forall q: Pos | IsRec(a, q.sec, q.idx) && Visited(|a|, oldest, k, j, q) ensures AtRest(RecAt(a, q)) {
      assert Visited(|a|, oldest, k, n, q);
    }
  }

  /** The same between two sectors. */
  ghost predicate StillTo(a: View, v: View, size: nat, oldest: nat, k: nat) {
    oldest < |a| && NonePassed(a, size, oldest, k, 0) && (RestUpTo(a, oldest, k, 0) ==> v == a)
  }

  lemma StillBegins(a: View, size: nat, oldest: nat)
    requires oldest < |a|
    ensures StillTo(a, a, size, oldest, 0)
  {
    NonePassedStarts(a, size, oldest);
  }

  lemma StillStarts(a: View, v: View, size: nat, oldest: nat, sec: nat)
    requires oldest < |a| && sec < |a| && StillTo(a, v, size, oldest, Dist(oldest, |a|, sec))
    ensures StillAt(a, v, size, oldest, sec, 0)
  {
  }

  lemma StillNext(a: View, v: View, size: nat, oldest: nat, sec: nat)
    requires sec < |a| == |v| && StillAt(a, v, size, oldest, sec, |v[sec].recs|)
    ensures StillTo(a, v, size, oldest, Dist(oldest, |a|, sec) + 1)
  {
    hide StuckAt, AtRest;
    var k := Dist(oldest, |a|, sec);
    if RestUpTo(a, oldest, k + 1, 0) {
      forall q: Pos | IsRec(a, q.sec, q.idx) && Visited(|a|, oldest, k, |v[sec].recs|, q) ensures AtRest(RecAt(a, q)) {
        assert Visited(|a|, oldest, k + 1, 0, q);
      }
    }
    forall q | FirstStuck(a, size, oldest, q) ensures !Visited(|a|, oldest, k + 1, 0, q) {
      StuckElsewhere(a, v, size, oldest, sec, q);
      assert !Visited(|a|, oldest, k, |v[sec].recs|, q);
      SameDist(oldest, |a|, sec, q.sec);
    }
  }

  lemma StuckElsewhere(a: View, v: View, size: nat, oldest: nat, sec: nat, q: Pos)
    requires sec < |a| == |v| && StillAt(a, v, size, oldest, sec, |v[sec].recs|) && FirstStuck(a, size, oldest, q)
    ensures q.sec != sec
  {
    hide NoChoice, AtRest;
    if q.sec == sec {
      RestLess(a, oldest, Dist(oldest, |a|, sec), q.idx, |v[sec].recs|);
      assert false;
    }
  }

  /** The first record that is not at rest is the one a stuck pass ends at. */
  lemma StuckHere(a: View, v: View, size: nat, oldest: nat, sec: nat, j: nat, q: Pos)
    requires StillAt(a, v, size, oldest, sec, j) && IsRec(v, sec, j) && !AtRest(v[sec].recs[j])
    requires FirstStuck(a, size, oldest, q)
    ensures q == Pos(sec, j) && v == a
  {
    hide NoChoice, AtRest, StuckAt;
    var k, p := Dist(oldest, |a|, sec), Pos(sec, j);
    var l := Dist(oldest, |a|, q.sec);
    var reached := Visited(|a|, oldest, l, q.idx, p);
    assert !Visited(|a|, oldest, k, j, q);
    SameDist(oldest, |a|, sec, q.sec);
    forall r: Pos | IsRec(a, r.sec, r.idx) && Visited(|a|, oldest, k, j, r) ensures AtRest(RecAt(a, r)) {
      assert Visited(|a|, oldest, l, q.idx, r);
    }
    assert v == a;
    assert RecAt(a, p) == v[sec].recs[j];
    assert q == p || reached;
  }

  lemma CutNotStuck(a: View, v: View, size: nat, oldest: nat, sec: nat, j: nat)
    requires StillAt(a, v, size, oldest, sec, j) && IsRec(v, sec, j) && CutShort(RecAt(v, Pos(sec, j)))
    ensures NeverStuck(a, size, oldest)
  {
    hide FirstStuck, StillAt;
    forall q ensures !FirstStuck(a, size, oldest, q) {
      if FirstStuck(a, size, oldest, q) {
        StuckHere(a, v, size, oldest, sec, j, q);
        StuckHalf(a, size, oldest, q);
        assert false;
      }
    }
  }

  lemma StuckHalf(a: View, size: nat, oldest: nat, q: Pos)
    requires FirstStuck(a, size, oldest, q)
    ensures IsRec(a, q.sec, q.idx) && RecAt(a, q).status == PreDelete
  {
  }

  /** The pass runs out of room at record `j` of sector `sec`. */
  lemma StuckSweep(a: View, v: View, w: View, size: nat, oldest: nat, sec: nat, j: nat)
    requires oldest < |a| && sec < |a| && Sweep(a, v, oldest, Dist(oldest, |a|, sec), j)
    requires StillAt(a, v, size, oldest, sec, j) && Pos(sec, j) in Halves(v)
    requires MarkedFrom(v, w) && StuckAt(w, size, Pos(sec, j))
    ensures FirstStuck(w, size, oldest, Pos(sec, j)) && Grown(a, w)
    ensures OnlyAt(a, w, size, oldest, Pos(sec, j))
  {
    hide FirstStuck, StillAt, Sweep, StuckAt, MarkedFrom;
    StuckFirst(a, v, w, size, oldest, Pos(sec, j));
    SweepGrows(a, v, oldest, Dist(oldest, |a|, sec), j);
    GrownMarks(a, v, w);
    HalvesIs(v, Pos(sec, j));
    forall q | FirstStuck(a, size, oldest, q) ensures q == Pos(sec, j) && MarkedFrom(a, w) {
      StuckHere(a, v, size, oldest, sec, j, q);
    }
  }

  /** A pass that has gone round. */
  lemma StillDone(a: View, v: View, size: nat, oldest: nat)
    requires StillTo(a, v, size, oldest, |a|)
    ensures forall q :: !FirstStuck(a, size, oldest, q)
    ensures Resting(a, -1) ==> v == a
  {
    hide AtRest, StuckAt;
    forall q ensures !FirstStuck(a, size, oldest, q) {
      assert q.sec < |a| ==> Visited(|a|, oldest, |a|, 0, q);
    }
    if Resting(a, -1) {
      forall q: Pos | IsRec(a, q.sec, q.idx) ensures AtRest(RecAt(a, q)) {
        assert RestSector(a[q.sec], false);
        assert RecAt(a, q) == a[q.sec].recs[q.idx];
      }
    }
  }

  /** Where a pass runs out of room everything before is at rest. */
  lemma StuckFirst(a: View, v: View, w: View, size: nat, oldest: nat, p: Pos)
    requires oldest < |a| && p.sec < |a| && Sweep(a, v, oldest, Dist(oldest, |a|, p.sec), p.idx)
    requires MarkedFrom(v, w) && StuckAt(w, size, p)
    ensures FirstStuck(w, size, oldest, p)
  {
    hide StuckAt, AtRest, Marked;
    var k := Dist(oldest, |a|, p.sec);
    forall q: Pos | IsRec(w, q.sec, q.idx) && Visited(|w|, oldest, k, p.idx, q) ensures AtRest(RecAt(w, q)) {
      MarkedFromSame(v, w, q.sec);
      MarkedRests(RecAt(v, q));
      assert IsRec(v, q.sec, q.idx) && AtRest(RecAt(v, q));
      assert RecAt(w, q) in {RecAt(v, q), Marked(RecAt(v, q))};
    }
  }
}
