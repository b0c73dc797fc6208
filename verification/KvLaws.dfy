/**
  What the allocator and the collector do, in terms of the sectors alone: where a record goes, when an
  empty sector is opened, which sectors are collected and where walks begin afterwards.
*/
module KvLaws {
  import opened Bytes
  import opened KvLayout
  import opened KvImage
  import opened KvWalk
  import opened KvView
  import opened KvModel
  import opened KvRest
  import opened KvRoom
  import opened KvGc
  import opened KvCollect
  import opened Ring

  /** How far behind `from` sector `i` lies on the way round. */
  function Ahead(num: nat, from: nat, i: nat): nat
    requires from < num && i < num
  {
    (i + num - from) % num
  }

  /** The sector that follows `i`. */
  function Behind(num: nat, i: nat): nat
    requires i < num
  {
    (i + 1) % num
  }

  lemma AheadIsDist(num: nat, from: nat, i: nat)
    requires from < num && i < num
    ensures Ahead(num, from, i) == Dist(from, num, i)
  {
    if i >= from {
      assert i + num - from == num + (i - from);
    }
  }

  // ----- where a record goes -----

  /** More than 88 bytes stay free behind it, and the sector is clean, or dirty while no collection runs. */
  ghost predicate Takes(s: Sector, size: nat, need: nat, gc: bool) {
    size - s.End() > need + 88 && (s.dirt == Clean || (s.dirt == Dirty && !gc))
  }

  /** The first sector of this status that takes it, on the way round from `oldest`. */
  ghost predicate Nearest(a: View, size: nat, oldest: nat, need: nat, gc: bool, store: Store, t: nat) {
    && oldest < |a| && t < |a| && a[t].store == store && Takes(a[t], size, need, gc)
    && forall i :: 0 <= i < |a| && a[i].store == store && Takes(a[i], size, need, gc) ==>
         Ahead(|a|, oldest, t) <= Ahead(|a|, oldest, i)
  }

  ghost predicate AnyTakes(a: View, size: nat, need: nat, gc: bool, store: Store) {
    exists i :: 0 <= i < |a| && a[i].store == store && Takes(a[i], size, need, gc)
  }

  /** A sector in use goes before an empty one, and the last empty one is taken during a collection only. */
  ghost predicate GoesTo(a: View, size: nat, oldest: nat, need: nat, gc: bool, t: nat) {
    if AnyTakes(a, size, need, gc, Using) then Nearest(a, size, oldest, need, gc, Using, t)
    else Nearest(a, size, oldest, need, gc, Empty, t) && (gc || |Empties(a)| > 1)
  }

  lemma ChosenGoes(a: View, size: nat, oldest: nat, need: nat, gc: bool, t: nat)
    requires Chosen(a, size, oldest, need, gc, t)
    ensures GoesTo(a, size, oldest, need, gc, t)
  {
    hide Empties;
    forall i | 0 <= i < |a| ensures Ahead(|a|, oldest, i) == Dist(oldest, |a|, i) {
      AheadIsDist(|a|, oldest, i);
    }
    if AnyTakes(a, size, need, gc, Using) {
      var i :| 0 <= i < |a| && a[i].store == Using && Takes(a[i], size, need, gc);
      assert Fits(a[i], size, need, gc);
    } else {
      forall i | 0 <= i < |a| && a[i].store == Using ensures !Fits(a[i], size, need, gc) {
        assert !Takes(a[i], size, need, gc);
      }
    }
  }

  lemma NoChoiceTakesNone(a: View, size: nat, need: nat, gc: bool)
    ensures NoChoice(a, size, need, gc) <==>
              !AnyTakes(a, size, need, gc, Using) && (gc || |Empties(a)| > 1 ==> !AnyTakes(a, size, need, gc, Empty))
  {
    hide Empties;
    FitsIsTakes(a, size, need, gc, Using);
    FitsIsTakes(a, size, need, gc, Empty);
  }

  lemma FitsIsTakes(a: View, size: nat, need: nat, gc: bool, store: Store)
    ensures NoFit(a, size, store, need, gc) <==> !AnyTakes(a, size, need, gc, store)
  {
    forall i | 0 <= i < |a| ensures Fits(a[i], size, need, gc) <==> Takes(a[i], size, need, gc) {}
  }

  // ----- where a set puts its record -----

  /** The record is the last one of sector `t` now; no other sector got any, and none was opened. */
  ghost predicate Lands(a: View, b: View, t: nat, key: Key, value: Value) {
    && |b| == |a| && t < |a| && |b[t].recs| == |a[t].recs| + 1
    && b[t].recs[|a[t].recs|] == Rec(a[t].End(), Write, key, value, Size(key, value))
    && forall i :: 0 <= i < |a| ==> b[i].store == a[i].store && (i != t ==> |b[i].recs| == |a[i].recs|)
  }

  ghost predicate LandsIn(a: View, oldest: nat, size: nat, store: Store, key: Key, value: Value, b: View) {
    exists t ::
      Nearest(a, size, oldest, Size(key, value), false, store, t) && if store == Using then Lands(a, b, t, key, value)
                                                                     else Opens(a, b, t, key, value)
  }

  /** A sector in use that takes the record gets it: the nearest one. */
  lemma PutLands(m: Moment, size: nat, key: Key, value: Value)
    requires m.oldest < |m.secs| && |key| <= NAME_MAX
    requires AnyTakes(m.secs, size, Size(key, value), false, Using)
    ensures !Refused(m.secs, size, m.oldest, Size(key, value)) && AfterPut(m, size, key, value).oldest == m.oldest
    ensures LandsIn(m.secs, m.oldest, size, Using, key, value, AfterPut(m, size, key, value).secs)
  {
    hide Empties, LastSeen, Nearest, Lands, GcRun, AnyTakes, Written;
    var a, need := m.secs, Size(key, value);
    FitsIsTakes(a, size, need, false, Using);
    TakerChosen(a, size, m.oldest, need);
    var t := Target(a, size, m.oldest, need, false);
    ChosenGoes(a, size, m.oldest, need, false, t);
    ChosenOrNot(a, size, m.oldest, need, false, t);
    RoomMadeIs(a, size, m.oldest, need);
    NearestStore(a, size, m.oldest, need, Using, t);
    WrittenLands(a, t, key, value);
  }

  /** The two ends of a set, from the store in which room was made. */
  lemma PutEnds(m: Moment, size: nat, key: Key, value: Value, a: View, o: nat, t: nat)
    requires m.oldest < |m.secs|
    requires var s := RoomMade(m.secs, size, m.oldest, Size(key, value)); s.secs == a && s.oldest == o
    ensures Refused(m.secs, size, m.oldest, Size(key, value)) ==>
              AfterPut(m, size, key, value) == Moment(a, o) && NoChoice(a, size, Size(key, value), false)
    ensures Chosen(a, size, o, Size(key, value), false, t) ==> Target(a, size, o, Size(key, value), false) == t
    ensures !Refused(m.secs, size, m.oldest, Size(key, value)) && Chosen(a, size, o, Size(key, value), false, t) ==>
              AfterPut(m, size, key, value) == Moment(if |key| > NAME_MAX then a else Written(a, t, key, value), o)
    ensures |key| <= NAME_MAX && AnyTakes(m.secs, size, Size(key, value), false, Using) ==>
              && !Refused(m.secs, size, m.oldest, Size(key, value)) && AfterPut(m, size, key, value).oldest == m.oldest
              && LandsIn(m.secs, m.oldest, size, Using, key, value, AfterPut(m, size, key, value).secs)
  {
    hide RoomMade, NoChoice, Chosen, Written, AnyTakes, LandsIn;
    if Chosen(a, size, o, Size(key, value), false, t) {
      TargetIs(a, size, o, Size(key, value), false, t);
    }
    if |key| <= NAME_MAX && AnyTakes(m.secs, size, Size(key, value), false, Using) {
      PutLands(m, size, key, value);
    }
  }

  /** Without one the nearest empty sector is opened, if two or more are empty. */
  lemma PutOpens(m: Moment, size: nat, key: Key, value: Value)
    requires m.oldest < |m.secs| && |key| <= NAME_MAX && |Empties(m.secs)| > 1 && Fresh(m.secs)
    requires !AnyTakes(m.secs, size, Size(key, value), false, Using)
    requires AnyTakes(m.secs, size, Size(key, value), false, Empty)
    ensures !Refused(m.secs, size, m.oldest, Size(key, value)) && AfterPut(m, size, key, value).oldest == m.oldest
    ensures LandsIn(m.secs, m.oldest, size, Empty, key, value, AfterPut(m, size, key, value).secs)
  {
    hide Empties, LastSeen, Nearest, Opens, GcRun, AnyTakes, Written, Fresh;
    var a, need := m.secs, Size(key, value);
    FitsIsTakes(a, size, need, false, Using);
    FitsIsTakes(a, size, need, false, Empty);
    EmptyChosen(a, size, m.oldest, need);
    var t := Target(a, size, m.oldest, need, false);
    ChosenGoes(a, size, m.oldest, need, false, t);
    ChosenOrNot(a, size, m.oldest, need, false, t);
    RoomMadeIs(a, size, m.oldest, need);
    NearestStore(a, size, m.oldest, need, Empty, t);
    WrittenOpens(a, t, key, value);
  }

  /** Empty sectors hold no record. */
  ghost predicate Fresh(a: View) {
    forall i :: 0 <= i < |a| && a[i].store == Empty ==> a[i].recs == []
  }

  /** Sector `t` is in use now, with the record as its first; the others are as many as before. */
  ghost predicate Opens(a: View, b: View, t: nat, key: Key, value: Value) {
    && |b| == |a| && t < |a| && b[t].store == Using && a[t].store == Empty
    && b[t].recs == [Rec(16, Write, key, value, Size(key, value))]
    && forall i :: 0 <= i < |a| && i != t ==> b[i].store == a[i].store && |b[i].recs| == |a[i].recs|
  }

  lemma NearestStore(a: View, size: nat, oldest: nat, need: nat, store: Store, t: nat)
    requires Nearest(a, size, oldest, need, false, store, t)
    ensures t < |a| && a[t].store == store
  {
  }

  lemma TakerChosen(a: View, size: nat, oldest: nat, need: nat)
    requires oldest < |a| && !NoFit(a, size, Using, need, false)
    ensures Chosen(a, size, oldest, need, false, Target(a, size, oldest, need, false))
  {
    hide Fits, Empties;
    var i :| 0 <= i < |a| && a[i].store == Using && Fits(a[i], size, need, false);
    FirstOf(a, size, oldest, need, Using, i);
    var t :| FirstFit(a, size, oldest, Using, need, false, t);
    assert Chosen(a, size, oldest, need, false, t);
  }

  lemma EmptyChosen(a: View, size: nat, oldest: nat, need: nat)
    requires oldest < |a| && NoFit(a, size, Using, need, false) && !NoFit(a, size, Empty, need, false)
    requires |Empties(a)| > 1
    ensures Chosen(a, size, oldest, need, false, Target(a, size, oldest, need, false))
  {
    hide Fits, Empties;
    var i :| 0 <= i < |a| && a[i].store == Empty && Fits(a[i], size, need, false);
    FirstOf(a, size, oldest, need, Empty, i);
    var t :| FirstFit(a, size, oldest, Empty, need, false, t);
    assert Chosen(a, size, oldest, need, false, t);
  }

  lemma FirstOf(a: View, size: nat, oldest: nat, need: nat, store: Store, i: nat)
    requires oldest < |a| && i < |a| && a[i].store == store && Fits(a[i], size, need, false)
    ensures exists t :: FirstFit(a, size, oldest, store, need, false, t)
    decreases Dist(oldest, |a|, i)
  {
    hide Fits;
    if j :| 0 <= j < |a| && Dist(oldest, |a|, j) < Dist(oldest, |a|, i) && a[j].store == store
            && Fits(a[j], size, need, false) {
      FirstOf(a, size, oldest, need, store, j);
    } else {
      assert FirstFit(a, size, oldest, store, need, false, i);
    }
  }

  lemma WrittenOpens(a: View, t: nat, key: Key, value: Value)
    requires t < |a| && a[t].store == Empty && Fresh(a)
    ensures Opens(a, Written(a, t, key, value), t, key, value)
  {
    hide Where, Stored;
    if Stored(a, key).Some? {
      StoredWhere(a, key);
      ReplacedOpens(a, Where(a, key), t, key, value);
    }
  }

  lemma ReplacedOpens(a: View, p: Pos, t: nat, key: Key, value: Value)
    requires t < |a| && a[t].store == Empty && a[t].recs == []
    ensures IsRec(a, p.sec, p.idx) ==> Opens(a, Replaced(a, p, t, key, value), t, key, value)
  {
  }

  lemma WrittenLands(a: View, t: nat, key: Key, value: Value)
    requires t < |a| && a[t].store == Using
    ensures Lands(a, Written(a, t, key, value), t, key, value)
  {
    hide Where, Stored;
    if Stored(a, key).Some? {
      StoredWhere(a, key);
      ReplacedLands(a, Where(a, key), t, key, value);
    }
  }

  lemma StoredWhere(a: View, key: Key)
    requires Stored(a, key).Some?
    ensures IsRec(a, Where(a, key).sec, Where(a, key).idx) && At(a, Where(a, key), Write, key)
  {
  }

  lemma ReplacedLands(a: View, p: Pos, t: nat, key: Key, value: Value)
    requires t < |a| && a[t].store == Using
    ensures IsRec(a, p.sec, p.idx) ==> Lands(a, Replaced(a, p, t, key, value), t, key, value)
  {
  }

  // ----- what a collection leaves -----

  /** Sector `i` was collected. */
  ghost predicate Cleaned(a: View, b: View, i: int) {
    0 <= i < |a| == |b| && a[i].dirt == Dirty && b[i].dirt == Clean
  }

  ghost predicate NoneCleaned(a: View, b: View) {
    forall i :: !Cleaned(a, b, i)
  }

  /** Sector `j` was the last one, and the dirty ones all lie behind it. */
  ghost predicate CleanedLast(a: View, b: View, from: nat, j: nat) {
    && from < |a| && Cleaned(a, b, j)
    && (forall i :: Cleaned(a, b, i) ==> Ahead(|a|, from, i) <= Ahead(|a|, from, j))
    && (forall i :: 0 <= i < |a| && b[i].dirt == Dirty ==> Ahead(|a|, from, j) < Ahead(|a|, from, i))
  }

  /** Sector `p` was collected just before `j`, or was `last` at the start if there was none. */
  ghost predicate JustBefore(a: View, b: View, from: nat, last: nat, j: nat, p: nat) {
    from < |a| && p < |a| &&
    if forall i :: Cleaned(a, b, i) ==> i == j then p == last
    else && Cleaned(a, b, p) && p != j
         && forall i :: Cleaned(a, b, i) && i != j ==> Ahead(|a|, from, i) <= Ahead(|a|, from, p)
  }

  /** Every other mark is as before. */
  ghost predicate OnlyCleaned(a: View, b: View) {
    |a| == |b| && forall i :: 0 <= i < |a| ==> Cleaned(a, b, i) || b[i].dirt == a[i].dirt
  }

  /**
    A collection round the ring from `oldest`: where walks begin afterwards, which sector counts as the last
    one collected, and why it ended before the end.
  */
  ghost predicate Sweeps(a: View, oldest: nat, last: nat, size: nat, free: nat, s: GcState) {
    && oldest < |a| == |s.secs| && s.last < |a| && OnlyCleaned(a, s.secs)
    && (if NoneCleaned(a, s.secs) then s.oldest == oldest && s.last == last && !s.ended
        else CleanedLast(a, s.secs, oldest, s.last) && s.oldest == (s.last + 1) % |a|)
    && (s.ended ==> exists p :: 0 <= p < |a| && JustBefore(a, s.secs, oldest, last, s.last, p) &&
                                size - s.secs[p].End() > free)
  }

  /** The same on the way, the first `k` sectors passed. */
  ghost predicate Passes(a: View, oldest: nat, last: nat, size: nat, free: nat, s: GcState, k: nat) {
    && Sweeps(a, oldest, last, size, free, s) && EndsBehindHeader(s.secs)
    && (forall i :: Cleaned(a, s.secs, i) ==> Ahead(|a|, oldest, i) < k)
    && (!s.ended ==> forall i :: 0 <= i < |a| && Ahead(|a|, oldest, i) < k ==> s.secs[i].dirt != Dirty)
  }

  lemma PassesSkip(a: View, oldest: nat, last: nat, size: nat, free: nat, s: GcState, k: nat, sec: nat)
    requires Passes(a, oldest, last, size, free, s, k) && sec < |a| && Ahead(|a|, oldest, sec) == k
    requires s.ended || s.secs[sec].dirt != Dirty
    ensures Passes(a, oldest, last, size, free, s, k + 1)
  {
    hide Sweeps, EndsBehindHeader, Ahead;
    SweepsLength(a, oldest, last, size, free, s);
    forall i | !s.ended && 0 <= i < |a| && Ahead(|a|, oldest, i) < k + 1 ensures s.secs[i].dirt != Dirty {
      SameAhead(|a|, oldest, i, sec);
    }
  }

  lemma SweepsLength(a: View, oldest: nat, last: nat, size: nat, free: nat, s: GcState)
    requires Sweeps(a, oldest, last, size, free, s)
    ensures |s.secs| == |a| && oldest < |a| && s.last < |a|
  {
  }

  lemma SameAhead(num: nat, from: nat, i: nat, j: nat)
    requires from < num && i < num && j < num
    ensures Ahead(num, from, i) == Ahead(num, from, j) <==> i == j
  {
    hide Ahead;
    AheadIsDist(num, from, i);
    AheadIsDist(num, from, j);
    SameDist(from, num, i, j);
  }

  lemma PassesTurn(a: View, oldest: nat, last: nat, size: nat, free: nat, s: GcState, k: nat, sec: nat, w: View)
    requires Passes(a, oldest, last, size, free, s, k) && sec < |a| && Ahead(|a|, oldest, sec) == k
    requires !s.ended && s.secs[sec].dirt == Dirty && |w| == |a| && EndsBehindHeader(w)
    requires w[sec].dirt == Clean && forall i :: 0 <= i < |a| && i != sec ==> w[i].dirt == s.secs[i].dirt
    ensures var t := GcState(w, (sec + 1) % |a|, sec, size - w[s.last].End() > free);
            Passes(a, oldest, last, size, free, t, k + 1)
  {
    hide EndsBehindHeader, Ahead;
    var t := GcState(w, (sec + 1) % |a|, sec, size - w[s.last].End() > free);
    assert a[sec].dirt == Dirty && Cleaned(a, w, sec);
    forall i ensures Cleaned(a, w, i) <==> i == sec || Cleaned(a, s.secs, i) {}
    forall i | 0 <= i < |a| && i != sec ensures Ahead(|a|, oldest, i) != k {
      SameAhead(|a|, oldest, i, sec);
    }
    if t.ended {
      assert JustBefore(a, w, oldest, last, sec, s.last);
    }
  }

  lemma {:induction false} GcPasses(a: View, size: nat, free: nat, oldest: nat, last: nat, k: nat)
    requires oldest < |a| && last < |a| && k <= |a| && EndsBehindHeader(a)
    requires forall i :: 0 <= i < |a| ==> a[i].dirt in {Clean, Dirty}
    ensures Passes(a, oldest, last, size, free, GcRun(GcState(a, oldest, last, false), size, free, oldest, k), k)
  {
    hide Collected, EndsBehindHeader, Passes, Ahead;
    if k == 0 {
      GcBegins(a, size, free, oldest, last);
    } else {
      GcPasses(a, size, free, oldest, last, k - 1);
      var s := GcRun(GcState(a, oldest, last, false), size, free, oldest, k - 1);
      var sec := SectorAfter(oldest, |a|, k - 1);
      AheadIsDist(|a|, oldest, sec);
      PassesParts(a, oldest, last, size, free, s, k - 1);
      if s.ended || s.secs[sec].dirt != Dirty {
        PassesSkip(a, oldest, last, size, free, s, k - 1, sec);
      } else {
        CollectedKeeps(s.secs, size, s.oldest, sec);
        NextIsNext(|a|, sec);
        PassesTurn(a, oldest, last, size, free, s, k - 1, sec, Collected(s.secs, size, s.oldest, sec));
      }
    }
  }

  lemma GcBegins(a: View, size: nat, free: nat, oldest: nat, last: nat)
    requires oldest < |a| && last < |a| && EndsBehindHeader(a)
    requires forall i :: 0 <= i < |a| ==> a[i].dirt in {Clean, Dirty}
    ensures Passes(a, oldest, last, size, free, GcState(a, oldest, last, false), 0)
  {
    hide EndsBehindHeader;
  }

  lemma PassesParts(a: View, oldest: nat, last: nat, size: nat, free: nat, s: GcState, k: nat)
    requires Passes(a, oldest, last, size, free, s, k)
    ensures |s.secs| == |a| && EndsBehindHeader(s.secs) && s.last < |a| && Sweeps(a, oldest, last, size, free, s)
  {
  }

  lemma NextIsNext(num: nat, i: nat)
    requires i < num
    ensures NextSector(num, i) == (i + 1) % num == Behind(num, i)
  {
  }

  /** Walks meet the sectors that are still dirty before any that was collected. */
  lemma DirtyFirst(a: View, oldest: nat, last: nat, size: nat, free: nat, s: GcState, i: nat, t: nat)
    requires Sweeps(a, oldest, last, size, free, s) && i < |a| && s.secs[i].dirt == Dirty && Cleaned(a, s.secs, t)
    ensures s.oldest < |a| && Ahead(|a|, s.oldest, i) < Ahead(|a|, s.oldest, t)
  {
    hide Ahead;
    var n, j := |a|, s.last;
    AheadIsDist(n, oldest, i);
    AheadIsDist(n, oldest, t);
    AheadIsDist(n, oldest, j);
    NextIsNext(n, j);
    AheadIsDist(n, s.oldest, i);
    AheadIsDist(n, s.oldest, t);
  }

  /** The empty sector met last on the way round, or the first sector if there is none. */
  ghost predicate LastEmptyIs(a: View, from: nat, z: nat) {
    from < |a| && z < |a| &&
    if exists i :: 0 <= i < |a| && a[i].store == Empty then
      && a[z].store == Empty
      && forall i :: 0 <= i < |a| && a[i].store == Empty ==> Ahead(|a|, from, i) <= Ahead(|a|, from, z)
    else z == 0
  }

  lemma {:induction false} LastSeenIs(a: View, from: nat, k: nat)
    requires from < |a| && k <= |a|
    ensures var z := LastSeen(a, from, k);
            && z < |a|
            && (forall i :: 0 <= i < |a| && a[i].store == Empty && Dist(from, |a|, i) < k ==>
                  a[z].store == Empty && Dist(from, |a|, i) <= Dist(from, |a|, z))
            && ((a[z].store == Empty && Dist(from, |a|, z) < k) || z == 0)
  {
    if k > 0 {
      LastSeenIs(a, from, k - 1);
      forall i | 0 <= i < |a| ensures Dist(from, |a|, i) == k - 1 <==> i == SectorAfter(from, |a|, k - 1) {
        SameDist(from, |a|, i, SectorAfter(from, |a|, k - 1));
      }
    }
  }

  /** A collection that wants more than `free` bytes, as a whole. */
  ghost predicate CollectedOnce(a: View, oldest: nat, size: nat, free: nat, b: View, next: nat) {
    exists z, l, e :: LastEmptyIs(a, oldest, z) && Sweeps(a, oldest, z, size, free, GcState(b, next, l, e))
  }

  lemma GcLaw(a: View, size: nat, free: nat, oldest: nat)
    requires oldest < |a| && EndsBehindHeader(a) && forall i :: 0 <= i < |a| ==> a[i].dirt in {Clean, Dirty}
    ensures var s := GcRun(GcState(a, oldest, LastSeen(a, oldest, |a|), false), size, free, oldest, |a|);
            CollectedOnce(a, oldest, size, free, s.secs, s.oldest)
  {
    hide GcRun, LastSeen, Sweeps, Ahead, EndsBehindHeader;
    var z := LastSeen(a, oldest, |a|);
    LastSeenIs(a, oldest, |a|);
    forall i | 0 <= i < |a| ensures Ahead(|a|, oldest, i) == Dist(oldest, |a|, i) {
      AheadIsDist(|a|, oldest, i);
    }
    assert LastEmptyIs(a, oldest, z);
    GcPasses(a, size, free, oldest, z, |a|);
    var s := GcRun(GcState(a, oldest, z, false), size, free, oldest, |a|);
    PassesParts(a, oldest, z, size, free, s, |a|);
    assert s == GcState(s.secs, s.oldest, s.last, s.ended);
  }

  /** A store between operations meets the conditions. */
  lemma RestingSweeps(a: View, size: nat)
    requires Shaped(a, size) && Resting(a, -1)
    ensures EndsBehindHeader(a) && forall i :: 0 <= i < |a| ==> a[i].dirt in {Clean, Dirty}
  {
    hide RestSector, SectorShape;
    forall i | 0 <= i < |a| ensures a[i].dirt in {Clean, Dirty} && a[i].End() >= SECTOR_HDR {
      SectorSweeps(a, size, i);
    }
  }

  lemma SectorSweeps(a: View, size: nat, i: nat)
    requires Shaped(a, size) && i < |a|
    ensures a[i].End() >= SECTOR_HDR && (RestSector(a[i], false) ==> a[i].dirt in {Clean, Dirty})
  {
    assert SectorShape(a[i], size);
  }

  /** So does any store without a dirty sector. */
  lemma CleanSweeps(a: View, size: nat)
    requires Shaped(a, size) && AllClean(a)
    ensures EndsBehindHeader(a) && forall i :: 0 <= i < |a| ==> a[i].dirt in {Clean, Dirty}
  {
    hide RestSector, SectorShape;
    forall i | 0 <= i < |a| ensures a[i].End() >= SECTOR_HDR {
      SectorSweeps(a, size, i);
    }
  }

  // ----- garbage is marked -----

  /** Only sectors whose header says so hold records that were deleted, or are about to be. */
  ghost predicate GarbageMarked(a: View) {
    forall i, j ::
      0 <= i < |a| && 0 <= j < |a[i].recs| && a[i].recs[j].status in {PreDelete, Deleted} ==> a[i].dirt != Clean
  }

  lemma DeletedMarked(a: View, p: Pos, st: KvStatus)
    requires GarbageMarked(a) && IsRec(a, p.sec, p.idx)
    ensures GarbageMarked(DeletedView(a, p.sec, p.idx, st)) && |DeletedView(a, p.sec, p.idx, st)| == |a|
  {
  }

  lemma AppendedMarked(a: View, t: nat, key: Key, value: Value)
    requires GarbageMarked(a) && t < |a|
    ensures GarbageMarked(a[t := Appended(a[t], key, value)])
  {
  }

  lemma CopiedMarked(a: View, p: Pos, t: nat)
    requires GarbageMarked(a) && t < |a| && IsRec(a, p.sec, p.idx)
    ensures GarbageMarked(CopiedView(a, p, t))
  {
    hide Appended, DeletedView, GarbageMarked;
    AppendedMarked(a, t, RecAt(a, p).key, RecAt(a, p).value);
    AppendKeepsRec(a, p, t, RecAt(a, p).key, RecAt(a, p).value);
    DeletedMarked(a[t := Appended(a[t], RecAt(a, p).key, RecAt(a, p).value)], p, Deleted);
  }

  lemma MovedMarked(v: View, size: nat, oldest: nat, g: nat, j: nat)
    requires GarbageMarked(v) && IsRec(v, g, j)
    ensures GarbageMarked(MovedOut(v, size, oldest, g, j)) && |MovedOut(v, size, oldest, g, j)| == |v|
  {
    hide Target, CopiedView, DeletedView, GarbageMarked;
    var p := Pos(g, j);
    DeletedMarked(v, p, PreDelete);
    DeletedKeepsRec(v, p, PreDelete);
    var m := Prepared(v, p, Write);
    var t := Target(m, size, oldest, v[g].recs[j].Len(), true);
    if t < |m| {
      CopiedMarked(m, p, t);
      CopiedLength(m, p, t);
    }
  }

  lemma DeletedKeepsRec(a: View, p: Pos, st: KvStatus)
    requires IsRec(a, p.sec, p.idx)
    ensures IsRec(DeletedView(a, p.sec, p.idx, st), p.sec, p.idx) && |DeletedView(a, p.sec, p.idx, st)| == |a|
  {
  }

  lemma CopiedLength(a: View, p: Pos, t: nat)
    requires t < |a| && IsRec(a, p.sec, p.idx)
    ensures |CopiedView(a, p, t)| == |a|
  {
  }

  lemma {:induction false} EmptiedMarked(v: View, size: nat, oldest: nat, g: nat, j: nat)
    requires GarbageMarked(v)
    ensures GarbageMarked(Emptied(v, size, oldest, g, j)) && |Emptied(v, size, oldest, g, j)| == |v|
  {
    hide MovedOut, GarbageMarked;
    if j > 0 {
      EmptiedMarked(v, size, oldest, g, j - 1);
      var u := Emptied(v, size, oldest, g, j - 1);
      if IsRec(u, g, j - 1) {
        MovedMarked(u, size, oldest, g, j - 1);
      }
    }
  }

  lemma CollectedMarked(v: View, size: nat, oldest: nat, g: nat)
    requires GarbageMarked(v)
    ensures GarbageMarked(Collected(v, size, oldest, g)) && |Collected(v, size, oldest, g)| == |v|
  {
    hide Emptied;
    if g < |v| {
      EmptiedMarked(v[g := v[g].(dirt := Gc)], size, oldest, g, |v[g].recs|);
    }
  }

  lemma {:induction false} RunMarked(s: GcState, size: nat, free: nat, from: nat, k: nat)
    requires from < |s.secs| && k <= |s.secs| && GarbageMarked(s.secs)
    ensures GarbageMarked(GcRun(s, size, free, from, k).secs)
  {
    hide GarbageMarked, Collected;
    if k > 0 {
      RunMarked(s, size, free, from, k - 1);
      var t := GcRun(s, size, free, from, k - 1);
      CollectedMarked(t.secs, size, t.oldest, SectorAfter(from, |s.secs|, k - 1));
    }
  }

  /** A set, with any collection in it, keeps it so. */
  lemma PutMarked(m: Moment, size: nat, key: Key, value: Value)
    requires m.oldest < |m.secs| && GarbageMarked(m.secs)
    ensures GarbageMarked(AfterPut(m, size, key, value).secs)
  {
    hide GarbageMarked, GcRun, LastSeen, CollectionDue, Target, Written, Refused;
    RunMarked(GcState(m.secs, m.oldest, LastSeen(m.secs, m.oldest, |m.secs|), false), size, Size(key, value), m.oldest,
              |m.secs|);
    var s := RoomMade(m.secs, size, m.oldest, Size(key, value));
    WrittenMarked(s.secs, Target(s.secs, size, s.oldest, Size(key, value), false), key, value);
  }

  lemma WrittenMarked(a: View, t: nat, key: Key, value: Value)
    requires GarbageMarked(a)
    ensures GarbageMarked(Written(a, t, key, value))
  {
    hide GarbageMarked, DeletedView, Appended, Where, Stored;
    var p := Where(a, key);
    if t < |a| {
      AppendedMarked(a, t, key, value);
      if IsRec(a, p.sec, p.idx) {
        DeletedMarked(a, p, PreDelete);
        var h := HalfDeleted(a, p);
        AppendedMarked(h, t, key, value);
        var w := h[t := Appended(h[t], key, value)];
        if IsRec(w, p.sec, p.idx) {
          DeletedMarked(w, p, Deleted);
        }
      }
    }
  }

  lemma DelMarked(m: Moment, key: Key)
    requires GarbageMarked(m.secs)
    ensures GarbageMarked(AfterDel(m, key).secs)
  {
    hide GarbageMarked, DeletedView, Where, Stored;
    var p := Where(m.secs, key);
    if IsRec(m.secs, p.sec, p.idx) {
      DeletedMarked(m.secs, p, Deleted);
    }
  }
}
