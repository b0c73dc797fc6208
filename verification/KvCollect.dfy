/**
  Garbage collection as a function on views: where each live record goes, when the collection ends,
  and what that means for a store that then reports itself full.
*/
module KvCollect {
  import opened Bytes
  import opened KvLayout
  import opened KvImage
  import opened KvWalk
  import opened KvView
  import opened KvModel
  import opened KvRest
  import opened KvRoom
  import opened KvGc
  import opened Ring

  /** The sector the allocator picks. */
  ghost function Target(v: View, size: nat, oldest: nat, need: nat, gcRequest: bool): nat {
    if t: nat :| Chosen(v, size, oldest, need, gcRequest, t) then t else 0
  }

  lemma TargetIs(v: View, size: nat, oldest: nat, need: nat, gcRequest: bool, t: nat)
    requires Chosen(v, size, oldest, need, gcRequest, t)
    ensures Target(v, size, oldest, need, gcRequest) == t
  {
    hide Fits, NoFit, Empties;
    var u := Target(v, size, oldest, need, gcRequest);
    assert Chosen(v, size, oldest, need, gcRequest, u);
    SameDist(oldest, |v|, t, u);
  }

  /** Record `j` of sector `g` moved out. */
  ghost function MovedOut(v: View, size: nat, oldest: nat, g: nat, j: nat): View
    requires IsRec(v, g, j)
  {
    var p := Pos(g, j);
    var m := Prepared(v, p, Write);
    var t := Target(m, size, oldest, v[g].recs[j].Len(), true);
    if t < |m| then CopiedView(m, p, t) else v
  }

  lemma MovedIs(a: View, b: View, size: nat, oldest: nat, g: nat, j: nat, t: int)
    requires IsRec(a, g, j) && MovedTo(a, b, Pos(g, j), t, size, oldest, a[g].recs[j].Len(), true)
    ensures b == MovedOut(a, size, oldest, g, j)
  {
    hide Chosen, CopiedView, Prepared;
    TargetIs(Prepared(a, Pos(g, j), Write), size, oldest, a[g].recs[j].Len(), true, t);
  }

  /** The first `j` records of sector `g` dealt with: the live ones moved out. */
  ghost function Emptied(v: View, size: nat, oldest: nat, g: nat, j: nat): View {
    if j == 0 then v else
      var u := Emptied(v, size, oldest, g, j - 1);
      if IsRec(u, g, j - 1) && u[g].recs[j - 1].status == Write then MovedOut(u, size, oldest, g, j - 1) else u
  }

  lemma {:induction false} EmptiedSkips(v: View, size: nat, oldest: nat, g: nat, j: nat, n: nat)
    requires j <= n
    requires var u := Emptied(v, size, oldest, g, j);
             forall i :: j <= i < n && IsRec(u, g, i) ==> u[g].recs[i].status != Write
    ensures Emptied(v, size, oldest, g, n) == Emptied(v, size, oldest, g, j)
    decreases n
  {
    hide MovedOut;
    if j < n {
      EmptiedSkips(v, size, oldest, g, j, n - 1);
      EmptiedSkip(v, size, oldest, g, n - 1);
    }
  }

  lemma EmptiedSkip(v: View, size: nat, oldest: nat, g: nat, j: nat)
    requires var u := Emptied(v, size, oldest, g, j); IsRec(u, g, j) ==> u[g].recs[j].status != Write
    ensures Emptied(v, size, oldest, g, j + 1) == Emptied(v, size, oldest, g, j)
  {
    hide MovedOut;
  }

  /** Sector `g` marked, emptied and formatted. */
  ghost function Collected(v: View, size: nat, oldest: nat, g: nat): View {
    if g < |v| then
      var w := Emptied(v[g := v[g].(dirt := Gc)], size, oldest, g, |v[g].recs|);
      if g < |w| then w[g := EMPTY_SECTOR] else w
    else v
  }

  /** A collection under way: the view, the oldest sector, the sector collected last, and whether it has ended. */
  datatype GcState = GcState(secs: View, oldest: nat, last: nat, ended: bool)

  /** One sector of a collection that wants more than `free` bytes. */
  ghost function GcTurn(s: GcState, size: nat, free: nat, sec: nat): GcState {
    if s.ended || sec >= |s.secs| || s.secs[sec].dirt != Dirty then s else
      var w := Collected(s.secs, size, s.oldest, sec);
      GcState(w, NextSector(|s.secs|, sec), sec, s.last < |w| && size - w[s.last].End() > free)
  }

  /** The first `k` sectors round the ring. */
  ghost function GcRun(s: GcState, size: nat, free: nat, from: nat, k: nat): GcState
    requires from < |s.secs| && k <= |s.secs|
  {
    if k == 0 then s else GcTurn(GcRun(s, size, free, from, k - 1), size, free, SectorAfter(from, |s.secs|, k - 1))
  }

  lemma {:induction false} EndedStays(s: GcState, size: nat, free: nat, from: nat, k: nat, n: nat)
    requires from < |s.secs| && k <= n <= |s.secs| && GcRun(s, size, free, from, k).ended
    ensures GcRun(s, size, free, from, n) == GcRun(s, size, free, from, k)
    decreases n
  {
    if k < n {
      EndedStays(s, size, free, from, k, n - 1);
    }
  }

  /** The last empty sector among the first `k` round the ring. */
  ghost function LastSeen(secs: View, from: nat, k: nat): nat
    requires from < |secs| && k <= |secs|
  {
    if k == 0 then 0
    else if secs[SectorAfter(from, |secs|, k - 1)].store == Empty then SectorAfter(from, |secs|, k - 1)
    else LastSeen(secs, from, k - 1)
  }

  lemma NoneSeen(secs: View, from: nat)
    requires from < |secs|
    ensures LastSeen(secs, from, 0) == 0
  {
  }

  lemma EmptiedNone(v: View, size: nat, oldest: nat, g: nat)
    ensures Emptied(v, size, oldest, g, 0) == v
  {
  }

  lemma EmptiedNext(base: View, a: View, b: View, size: nat, oldest: nat, g: nat, j: nat)
    requires a == Emptied(base, size, oldest, g, j) && IsRec(a, g, j)
    requires b == if a[g].recs[j].status == Write then MovedOut(a, size, oldest, g, j) else a
    ensures b == Emptied(base, size, oldest, g, j + 1)
  {
    hide MovedOut;
  }

  lemma CollectedIs(a: View, c: View, size: nat, oldest: nat, g: nat)
    requires g < |a| && c == Emptied(a[g := a[g].(dirt := Gc)], size, oldest, g, |a[g].recs|) && g < |c|
    ensures c[g := EMPTY_SECTOR] == Collected(a, size, oldest, g)
  {
    hide Emptied;
  }

  lemma GcRunNext(s: GcState, size: nat, free: nat, from: nat, k: nat)
    requires from < |s.secs| && k < |s.secs|
    ensures GcRun(s, size, free, from, k + 1)
                == GcTurn(GcRun(s, size, free, from, k), size, free, SectorAfter(from, |s.secs|, k))
    ensures GcRun(s, size, free, from, 0) == s
  {
    hide GcTurn;
  }

  lemma CleanTurn(v: View, oldest: nat, last: nat, size: nat, free: nat, sec: nat)
    requires sec < |v|
    ensures v[sec].dirt == Clean ==>
              GcTurn(GcState(v, oldest, last, false), size, free, sec) == GcState(v, oldest, last, false)
  {
  }

  lemma AfterDist(from: nat, num: nat, i: nat)
    requires from < num && i < num
    ensures SectorAfter(from, num, Dist(from, num, i)) == i
  {
  }

  lemma LastSeenStep(secs: View, from: nat, sec: nat)
    requires from < |secs| && sec < |secs|
    ensures var k := Dist(from, |secs|, sec);
            LastSeen(secs, from, k + 1) == if secs[sec].store == Empty then sec else LastSeen(secs, from, k)
  {
    SameDist(from, |secs|, sec, SectorAfter(from, |secs|, Dist(from, |secs|, sec)));
  }

  /** A collection runs before a record of `need` bytes is written: nothing in use has room, one sector is empty. */
  ghost predicate CollectionDue(a: View, size: nat, need: nat) {
    NoFit(a, size, Using, need, false) && |Empties(a)| == 1
  }

  /** The store once room for the record has been looked for. */
  ghost function RoomMade(a: View, size: nat, oldest: nat, need: nat): GcState
    requires oldest < |a|
  {
    var s := GcState(a, oldest, LastSeen(a, oldest, |a|), false);
    if CollectionDue(a, size, need) then GcRun(s, size, need, oldest, |a|) else s
  }

  /** It reports itself full. */
  ghost predicate Refused(a: View, size: nat, oldest: nat, need: nat)
    requires oldest < |a|
  {
    NoChoice(RoomMade(a, size, oldest, need).secs, size, need, false)
  }

  lemma DueRefuses(a: View, size: nat, need: nat)
    requires CollectionDue(a, size, need)
    ensures NoChoice(a, size, need, false)
  {
    hide NoFit;
  }

  lemma RoomMadeIs(a: View, size: nat, oldest: nat, need: nat)
    requires oldest < |a|
    ensures var s := GcState(a, oldest, LastSeen(a, oldest, |a|), false);
            RoomMade(a, size, oldest, need) == if CollectionDue(a, size, need) then GcRun(s, size, need, oldest, |a|)
                else s
  {
    hide GcRun, LastSeen, CollectionDue;
  }

  lemma ChosenOrNot(a: View, size: nat, oldest: nat, need: nat, gcRequest: bool, t: nat)
    requires Chosen(a, size, oldest, need, gcRequest, t)
    ensures !NoChoice(a, size, need, gcRequest)
  {
    hide Fits, Empties;
  }

  // ----- set and delete as functions on the store -----

  /** The sectors and the oldest one among them, between two operations. */
  datatype Moment = Moment(secs: View, oldest: nat)

  /** Where the live record of a key lies. */
  ghost function Where(v: View, key: Key): Pos {
    if p: Pos :| At(v, p, Write, key) then p else Pos(0, 0)
  }

  lemma WhereIs(v: View, p: Pos, key: Key)
    requires Unique(v, Write) && At(v, p, Write, key)
    ensures Where(v, key) == p
  {
    assert At(v, Where(v, key), Write, key);
  }

  /** The value written to sector `t`, between the two steps of deleting the record it replaces. */
  ghost function Written(v: View, t: nat, key: Key, value: Value): View {
    if t >= |v| then v
    else if Stored(v, key).None? then v[t := Appended(v[t], key, value)]
    else Replaced(v, Where(v, key), t, key, value)
  }

  ghost function Replaced(v: View, p: Pos, t: nat, key: Key, value: Value): View
    requires t < |v|
  {
    if IsRec(v, p.sec, p.idx) then
      var h := HalfDeleted(v, p);
      var w := h[t := Appended(h[t], key, value)];
      if IsRec(w, p.sec, p.idx) then DeletedView(w, p.sec, p.idx, Deleted) else w
    else v
  }

  /** Room is made, and unless there is none, or the name is too long, the value is written. */
  ghost function AfterPut(m: Moment, size: nat, key: Key, value: Value): Moment
    requires m.oldest < |m.secs|
  {
    var s := RoomMade(m.secs, size, m.oldest, Size(key, value));
    if Refused(m.secs, size, m.oldest, Size(key, value)) || |key| > NAME_MAX then Moment(s.secs, s.oldest)
    else Moment(Written(s.secs, Target(s.secs, size, s.oldest, Size(key, value), false), key, value), s.oldest)
  }

  /** Among the views since `from` is that in which the record to be replaced has just been half-deleted. */
  ghost predicate HalfPoint(trace: seq<View>, from: nat, a: View, key: Key) {
    exists t {:trigger trace[t]} :: from <= t < |trace| && trace[t] == Restated(a, Where(a, key), PreDelete)
  }

  lemma HalfPointLater(t0: seq<View>, t1: seq<View>, from: nat, a: View, key: Key, p: Pos)
    requires Unique(a, Write) && At(a, p, Write, key) && from <= |t0| && Extends(t0, t1)
    requires |t1| > |t0| && t1[|t0|] == Restated(a, p, PreDelete)
    ensures HalfPoint(t1, from, a, key)
  {
    WhereIs(a, p, key);
  }

  lemma HalfPointEarlier(trace: seq<View>, from: nat, first: nat, a: View, key: Key)
    requires HalfPoint(trace, from, a, key) && first <= from
    ensures HalfPoint(trace, first, a, key)
  {
    hide Restated, Where;
  }

  ghost function AfterDel(m: Moment, key: Key): Moment {
    var p := Where(m.secs, key);
    if Stored(m.secs, key).Some? && IsRec(m.secs, p.sec, p.idx) then
      Moment(DeletedView(m.secs, p.sec, p.idx, Deleted), m.oldest)
    else m
  }

  /** The sector a record will be laid in has no left-over bytes, or the record does not end in an erased one. */
  ghost predicate Layable(a: View, size: nat, oldest: nat, key: Key, value: Value)
    requires oldest < |a|
  {
    Storable(key, value) ==>
      || FirmValue(key, value) || AllEven(a)
      || var s := RoomMade(a, size, oldest, Size(key, value));
         var t := Target(s.secs, size, s.oldest, Size(key, value), false);
         t < |s.secs| && Even(s.secs[t])
  }

  // ----- what a collection does to the dirty marks -----

  ghost function Dirties(a: View): set<nat> {
    set i | 0 <= i < |a| && a[i].dirt == Dirty
  }

  ghost predicate SameDirt(a: View, b: View) {
    |a| == |b| && forall i :: 0 <= i < |a| ==> b[i].dirt == a[i].dirt
  }

  ghost predicate EndsBehindHeader(a: View) {
    forall i :: 0 <= i < |a| ==> a[i].End() >= SECTOR_HDR
  }

  lemma MovedOutKeeps(v: View, size: nat, oldest: nat, g: nat, j: nat)
    requires IsRec(v, g, j) && v[g].dirt == Gc && EndsBehindHeader(v)
    ensures SameDirt(v, MovedOut(v, size, oldest, g, j)) && EndsBehindHeader(MovedOut(v, size, oldest, g, j))
  {
    hide Target, Appended;
    var p := Pos(g, j);
    var m := Prepared(v, p, Write);
    var t := Target(m, size, oldest, v[g].recs[j].Len(), true);
    RestatedEnds(v, p, PreDelete);
    if t < |m| {
      var r := RecAt(m, p);
      AppendedParts(m[t], r.key, r.value);
      AppendKeepsRec(m, p, t, r.key, r.value);
      RestatedEnds(m[t := Appended(m[t], r.key, r.value)], p, Deleted);
    }
  }

  lemma RestatedEnds(v: View, p: Pos, st: KvStatus)
    requires IsRec(v, p.sec, p.idx) && v[p.sec].dirt == Gc && EndsBehindHeader(v)
    ensures var b := DeletedView(v, p.sec, p.idx, st); SameDirt(v, b) && EndsBehindHeader(b) && IsRec(b, p.sec, p.idx)
  {
    var s := v[p.sec];
    assert SetRecStatus(s, p.idx, st).End() == s.End();
  }

  lemma {:induction false} EmptiedKeeps(v: View, size: nat, oldest: nat, g: nat, j: nat)
    requires g < |v| && v[g].dirt == Gc && EndsBehindHeader(v)
    ensures var w := Emptied(v, size, oldest, g, j); SameDirt(v, w) && EndsBehindHeader(w)
  {
    hide MovedOut;
    if j > 0 {
      EmptiedKeeps(v, size, oldest, g, j - 1);
      var u := Emptied(v, size, oldest, g, j - 1);
      if IsRec(u, g, j - 1) {
        MovedOutKeeps(u, size, oldest, g, j - 1);
      }
    }
  }

  lemma CollectedKeeps(v: View, size: nat, oldest: nat, g: nat)
    requires g < |v| && EndsBehindHeader(v)
    ensures var w := Collected(v, size, oldest, g);
            |w| == |v| && w[g] == EMPTY_SECTOR && DirtKept(v, w, g) && EndsBehindHeader(w)
  {
    hide Emptied;
    EmptiedKeeps(v[g := v[g].(dirt := Gc)], size, oldest, g, |v[g].recs|);
  }

  /** Dirty sectors are clean once passed; the others keep their mark. */
  ghost predicate Swept(a: View, s: GcState, from: nat, k: nat) {
    && from < |a| == |s.secs| && EndsBehindHeader(s.secs) && s.last < |a|
    && (forall i :: 0 <= i < |a| ==> s.secs[i].dirt == a[i].dirt || (a[i].dirt == Dirty && s.secs[i].dirt == Clean))
    && (!s.ended ==> CleanBefore(s.secs, from, k))
  }

  lemma SweptTurn(a: View, s: GcState, size: nat, free: nat, from: nat, k: nat)
    requires Swept(a, s, from, k) && k < |a| && forall i :: 0 <= i < |a| ==> a[i].dirt in {Clean, Dirty}
    ensures Swept(a, GcTurn(s, size, free, SectorAfter(from, |a|, k)), from, k + 1)
    ensures free + SECTOR_HDR >= size && !s.ended ==> !GcTurn(s, size, free, SectorAfter(from, |a|, k)).ended
    ensures GcTurn(s, size, free, SectorAfter(from, |a|, k)).ended ==>
              s.ended || a[SectorAfter(from, |a|, k)].dirt == Dirty
    ensures !s.ended ==> GcTurn(s, size, free, SectorAfter(from, |a|, k)).secs[SectorAfter(from, |a|, k)].dirt == Clean
  {
    hide Collected;
    var sec := SectorAfter(from, |a|, k);
    CollectedKeeps(s.secs, size, s.oldest, sec);
    forall i | 0 <= i < |a| && Dist(from, |a|, i) == k ensures i == sec {
      SameDist(from, |a|, i, sec);
    }
  }

  lemma {:induction false} SweptRun(a: View, size: nat, free: nat, from: nat, last: nat, k: nat)
    requires from < |a| && last < |a| && k <= |a| && EndsBehindHeader(a)
    requires forall i :: 0 <= i < |a| ==> a[i].dirt in {Clean, Dirty}
    ensures Swept(a, GcRun(GcState(a, from, last, false), size, free, from, k), from, k)
    ensures free + SECTOR_HDR >= size ==> !GcRun(GcState(a, from, last, false), size, free, from, k).ended
    ensures GcRun(GcState(a, from, last, false), size, free, from, k).ended ==>
              exists i ::
                0 <= i < |a| && a[i].dirt == Dirty &&
                GcRun(GcState(a, from, last, false), size, free, from, k).secs[i].dirt == Clean
  {
    hide GcTurn;
    if k > 0 {
      SweptRun(a, size, free, from, last, k - 1);
      SweptTurn(a, GcRun(GcState(a, from, last, false), size, free, from, k - 1), size, free, from, k - 1);
      EndedTurn(GcRun(GcState(a, from, last, false), size, free, from, k - 1), size, free,
          SectorAfter(from, |a|, k - 1));
    }
  }

  lemma EndedTurn(s: GcState, size: nat, free: nat, sec: nat)
    ensures s.ended ==> GcTurn(s, size, free, sec) == s
  {
  }

  lemma LastSeenBound(secs: View, from: nat, k: nat)
    requires from < |secs| && k <= |secs|
    ensures LastSeen(secs, from, k) < |secs|
  {
    if k > 0 {
      LastSeenBound(secs, from, k - 1);
    }
  }

  /** With at most one dirty sector, or a record no sector can hold, a collection leaves nothing to collect. */
  lemma NothingLeft(a: View, size: nat, oldest: nat, need: nat)
    requires oldest < |a| && EndsBehindHeader(a) && (forall i :: 0 <= i < |a| ==> a[i].dirt in {Clean, Dirty})
    requires CollectionDue(a, size, need) && (|Dirties(a)| <= 1 || need + SECTOR_HDR >= size)
    ensures AllClean(RoomMade(a, size, oldest, need).secs)
  {
    hide GcRun, CollectionDue, LastSeen;
    var last := LastSeen(a, oldest, |a|);
    LastSeenBound(a, oldest, |a|);
    SweptRun(a, size, need, oldest, last, |a|);
    var s := GcRun(GcState(a, oldest, last, false), size, need, oldest, |a|);
    if s.ended {
      var i :| 0 <= i < |a| && a[i].dirt == Dirty && s.secs[i].dirt == Clean;
      forall k | 0 <= k < |a| ensures s.secs[k].dirt == Clean {
        if a[k].dirt == Dirty && k != i {
          assert {i, k} <= Dirties(a);
          TwoOf(Dirties(a), i, k);
        }
      }
    } else {
      CleanAll(s.secs, oldest);
    }
  }

  lemma TwoOf(s: set<nat>, i: nat, k: nat)
    requires i in s && k in s && i != k
    ensures |s| >= 2
  {
    assert |s - {i}| == |s| - 1 && k in s - {i};
  }
}
