/**
  When a store reports itself full. A collection ends as soon as the sector collected before the last
  one has more than the wanted bytes free, but the allocator asks for 88 bytes more: the record can be
  refused although dirty sectors are left. Here is when a refusal does mean that nothing was left.
*/
module KvFull {
  import opened Bytes
  import opened KvLayout
  import opened KvImage
  import opened KvWalk
  import opened KvView
  import opened KvModel
  import opened KvRest
  import opened KvRoom
  import opened KvGc
  import opened KvCrash
  import opened KvRestart
  import opened KvCollect
  import opened Ring

  function Zeros(n: nat): (s: seq<byte>)
    ensures |s| == n
  {
    seq(n, _ => 0)
  }

  // ----- a store in which a collection ends early -----

  /** Some live record fits next to the one that is wanted. */
  predicate Roomful(size: nat, need: nat) {
    need + REMAIN_THRESHOLD + SECTOR_HDR < size
  }

  /** A length that leaves the sector it is copied to with more than `need`, at most `need + 88` bytes. */
  function KeptLen(size: nat, need: nat): (n: nat)
    requires Roomful(size, need)
    ensures n >= 25
  {
    if need + 129 <= size then size - 104 - need else 25
  }

  function LiveRec(size: nat, need: nat, off: nat): Rec
    requires Roomful(size, need)
  {
    Rec(off, Write, [97], Zeros(KeptLen(size, need) - 25), KeptLen(size, need))
  }

  function DeadRec(off: nat, len: nat): Rec
    requires len >= 25
  {
    Rec(off, Deleted, [98], Zeros(len - 25), len)
  }

  /** A little garbage and, if there is room for it, a live record. */
  function FirstSector(size: nat, need: nat): Sector {
    Sector(Using, Dirty, [DeadRec(SECTOR_HDR, 25)] + if Roomful(size, need) then [LiveRec(size, need, 41)] else [])
  }

  /** Nothing but garbage, up to the threshold. */
  function FullSector(size: nat): Sector
    requires size > 200
  {
    Sector(Using, Dirty, [DeadRec(SECTOR_HDR, size - 105)])
  }

  /** `d` dirty sectors and an empty one. */
  function Littered(size: nat, need: nat, d: nat): (v: View)
    requires size > 200 && d >= 1
    ensures |v| == d + 1 && v[0] == FirstSector(size, need) && v[d] == EMPTY_SECTOR
    ensures forall i :: 0 < i < d ==> v[i] == FullSector(size)
  {
    [FirstSector(size, need)] + seq(d - 1, _ => FullSector(size)) + [EMPTY_SECTOR]
  }

  ghost predicate InRange(size: nat, need: nat, d: nat) {
    200 < size < U32_LIMIT && 26 <= need && need + SECTOR_HDR < size && d >= 2
  }

  lemma FirstParts(size: nat, need: nat)
    requires InRange(size, need, 2)
    ensures var s := FirstSector(size, need);
            && SectorShape(s, size) && SectorFit(s) && !Fits(s, size, need, false)
            && (forall i :: 0 <= i < |s.recs| ==> AtRest(s.recs[i])) && s.recs[0].status == Deleted
            && s.recs[0].Complete()
            && (Roomful(size, need) ==> s.recs[1].Complete() && s.recs[1].Len() == KeptLen(size, need))
  {
    hide Image, Harmless;
    var s := FirstSector(size, need);
    DeadParts(SECTOR_HDR, 25, size);
    if Roomful(size, need) {
      LiveParts(size, need);
      assert Adjacent(s.recs, 0);
    }
    LeftOverBytes(s);
  }

  lemma DeadParts(off: nat, len: nat, size: nat)
    requires 25 <= len < size < U32_LIMIT
    ensures var r := DeadRec(off, len);
            RecShape(r) && Harmless(r) && r.Complete() && r.Len() == r.Stated() == len && Visible(r)
  {
  }

  lemma LiveParts(size: nat, need: nat)
    requires InRange(size, need, 2) && Roomful(size, need)
    ensures var r := LiveRec(size, need, 41);
            RecShape(r) && Harmless(r) && r.Complete() && r.Len() == r.Stated() == KeptLen(size, need) && Visible(r)
  {
  }

  lemma FullParts(size: nat, need: nat)
    requires InRange(size, need, 2)
    ensures var s := FullSector(size);
            && SectorShape(s, size) && SectorFit(s) && (forall gc :: !Fits(s, size, need, gc))
            && (forall i :: 0 <= i < |s.recs| ==> s.recs[i].status == Deleted) && s.End() == size - 89
  {
    hide Image, Harmless;
    var s := FullSector(size);
    DeadParts(SECTOR_HDR, size - 105, size);
    LeftOverBytes(s);
  }

  lemma LitteredStore(size: nat, need: nat, d: nat)
    requires InRange(size, need, d)
    ensures var v := Littered(size, need, d);
            Shaped(v, size) && Settled(v) && Exact(v) && Quiescent(v) && Empties(v) == {d} &&
            CollectionDue(v, size, need)
  {
    hide SectorShape, SectorFit, Fits, FirstSector, FullSector, AtRest, Littered;
    var v := Littered(size, need, d);
    FirstParts(size, need);
    FullParts(size, need);
    EmptyFits();
    forall i | 0 <= i < |v| ensures SectorShape(v[i], size) && SectorFit(v[i]) && RestSector(v[i], false) &&
        v[i].store in {Empty, Using} {
      LitteredSector(size, need, d, i);
    }
    forall i | 0 <= i < |v| ensures SectorSettled(v[i]) && SectorExact(v[i]) {
      FitParts(v[i]);
    }
    LitteredEmpties(size, need, d);
    forall i | 0 <= i < |v| && v[i].store == Using ensures !Fits(v[i], size, need, false) {
      LitteredSector(size, need, d, i);
    }
    OneLive(size, need, d);
  }

  lemma LitteredSector(size: nat, need: nat, d: nat, i: nat)
    requires InRange(size, need, d) && i <= d
    ensures var s := Littered(size, need, d)[i];
            && SectorShape(s, size) && SectorFit(s) && RestSector(s, false)
            && s.store == (if i < d then Using else Empty)
            && (i < d ==> !Fits(s, size, need, false)) && s.dirt == (if i < d then Dirty else Clean)
  {
    hide SectorFit, Fits, FirstSector, FullSector, Littered;
    FirstParts(size, need);
    FullParts(size, need);
    EmptyFits();
    SectorKinds(size, need);
    var s := Littered(size, need, d)[i];
    assert s == if i == 0 then FirstSector(size, need) else if i < d then FullSector(size) else EMPTY_SECTOR;
    if i == d {
      FitOf(EMPTY_SECTOR);
    }
  }

  lemma SectorKinds(size: nat, need: nat)
    requires size > 200
    ensures FirstSector(size, need).store == Using && FirstSector(size, need).dirt == Dirty
    ensures FullSector(size).store == Using && FullSector(size).dirt == Dirty
  {
  }

  lemma LitteredEmpties(size: nat, need: nat, d: nat)
    requires InRange(size, need, d)
    ensures Empties(Littered(size, need, d)) == {d} && |Empties(Littered(size, need, d))| == 1
  {
    hide Littered, SectorShape, SectorFit, Fits;
    forall i | 0 <= i <= d ensures Littered(size, need, d)[i].store == (if i < d then Using else Empty) {
      LitteredSector(size, need, d, i);
    }
  }

  lemma OneLive(size: nat, need: nat, d: nat)
    requires InRange(size, need, d)
    ensures Unique(Littered(size, need, d), Write)
  {
    hide Littered, FullSector, FirstSector, SectorShape, SectorFit, Fits, RecAt;
    var v := Littered(size, need, d);
    FullParts(size, need);
    forall p, k | At(v, p, Write, k) ensures p == Pos(0, 1) {
      AtParts(v, p, Write, k);
      if p.sec == 0 {
        FirstLive(size, need, p.idx);
      } else if p.sec < d {
        DeadNotLive(v, p, k);
      }
    }
  }

  lemma FirstLive(size: nat, need: nat, i: nat)
    requires i < |FirstSector(size, need).recs| && FirstSector(size, need).recs[i].status == Write
    ensures i == 1
  {
    hide KeptLen, Zeros;
  }

  lemma DeadNotLive(v: View, p: Pos, k: Key)
    requires p.sec < |v| && forall i :: 0 <= i < |v[p.sec].recs| ==> v[p.sec].recs[i].status == Deleted
    ensures !At(v, p, Write, k)
  {
  }

  // ----- what the collection makes of it -----

  /** The first sector collected, its live record in what was the empty one. */
  function Shifted(size: nat, need: nat, d: nat): (v: View)
    requires size > 200 && d >= 1
    ensures |v| == d + 1 && v[0] == EMPTY_SECTOR
    ensures v[d] == if Roomful(size, need) then Sector(Using, Clean, [LiveRec(size, need, SECTOR_HDR)])
                else EMPTY_SECTOR
    ensures forall i :: 0 < i < d ==> v[i] == FullSector(size)
  {
    [EMPTY_SECTOR] + seq(d - 1, _ => FullSector(size))
    + [if Roomful(size, need) then Sector(Using, Clean, [LiveRec(size, need, SECTOR_HDR)]) else EMPTY_SECTOR]
  }

  lemma LiveIsLive(size: nat, need: nat)
    requires size > 200 && Roomful(size, need)
    ensures |FirstSector(size, need).recs| == 2 && FirstSector(size, need).recs[1].status == Write
  {
  }

  lemma ShiftedFrom(size: nat, need: nat, d: nat)
    requires InRange(size, need, d)
    ensures Collected(Littered(size, need, d), size, 0, 0) == Shifted(size, need, d)
  {
    hide MovedOut, FullSector, Emptied, Littered, Shifted, SectorShape, SectorFit, Fits, LiveRec, DeadRec;
    var v := Littered(size, need, d);
    var m := v[0 := v[0].(dirt := Gc)];
    FirstParts(size, need);
    EmptiedNone(m, size, 0, 0);
    EmptiedNext(m, m, m, size, 0, 0, 0);
    if Roomful(size, need) {
      LiveIsLive(size, need);
      EmptiedNext(m, m, MovedOut(m, size, 0, 0, 1), size, 0, 0, 1);
      LiveMoves(size, need, d);
      assert MovedOut(m, size, 0, 0, 1)[0 := EMPTY_SECTOR] == Shifted(size, need, d);
    } else {
      assert m[0 := EMPTY_SECTOR] == Shifted(size, need, d);
    }
  }

  /** While the first sector is collected, only the empty one can take its record. */
  lemma LiveMoves(size: nat, need: nat, d: nat)
    requires InRange(size, need, d) && Roomful(size, need)
    ensures var v := Littered(size, need, d); var w := MovedOut(v[0 := v[0].(dirt := Gc)], size, 0, 0, 1);
            |w| == d + 1 && w[d] == Shifted(size, need, d)[d] && forall i :: 0 < i < d ==> w[i] == v[i]
  {
    hide FullSector, Littered, Target, NoFit;
    var v := Littered(size, need, d);
    var a, p, len := v[0 := v[0].(dirt := Gc)], Pos(0, 1), KeptLen(size, need);
    var m := Prepared(a, p, Write);
    FirstParts(size, need);
    LiveParts(size, need);
    assert IsRec(a, 0, 1) && a[0].recs[1].Len() == len && a[0].recs[1] == LiveRec(size, need, 41);
    assert m == a[0 := SetRecStatus(a[0], 1, PreDelete)];
    LiveTarget(size, need, d, m);
    TargetIs(m, size, 0, len, true, d);
    assert RecAt(m, p).key == [97] && RecAt(m, p).value == Zeros(len - 25);
    assert Appended(EMPTY_SECTOR, [97], Zeros(len - 25)).recs == [LiveRec(size, need, SECTOR_HDR)];
  }

  lemma LiveTarget(size: nat, need: nat, d: nat, m: View)
    requires InRange(size, need, d) && Roomful(size, need) && |m| == d + 1 && m[0].dirt == Gc && m[0].store == Using
    requires m[d] == EMPTY_SECTOR
    requires forall i :: 0 < i < d ==> m[i] == FullSector(size)
    ensures Chosen(m, size, 0, KeptLen(size, need), true, d)
  {
    SectorKinds(size, need);
    assert NoFit(m, size, Using, KeptLen(size, need), true);
    assert Fits(m[d], size, KeptLen(size, need), true);
  }

  lemma TargetFilled(size: nat, need: nat)
    requires InRange(size, need, 2)
    ensures EMPTY_SECTOR.End() == SECTOR_HDR && (!Roomful(size, need) ==> !Fits(EMPTY_SECTOR, size, need, false))
    ensures Roomful(size, need) ==> var s := Sector(Using, Clean, [LiveRec(size, need, SECTOR_HDR)]);
              !Fits(s, size, need, false) && size - s.End() > need
  {
    if Roomful(size, need) {
      LiveParts(size, need);
    }
  }

  lemma ShiftedRefuses(size: nat, need: nat, d: nat)
    requires InRange(size, need, d)
    ensures var v := Shifted(size, need, d);
            NoChoice(v, size, need, false) && !AllClean(v) && size - v[d].End() > need
  {
    hide FullSector, Shifted, SectorShape, SectorFit, Fits, LiveRec;
    var v := Shifted(size, need, d);
    FullParts(size, need);
    SectorKinds(size, need);
    TargetFilled(size, need);
    forall i | 0 <= i < |v| && v[i].store == Using ensures !Fits(v[i], size, need, false) {
      if 0 < i < d {
        assert v[i] == FullSector(size);
      }
    }
    assert v[1] == FullSector(size) && v[1].dirt == Dirty;
    if Roomful(size, need) {
      assert forall i :: 0 < i < d ==> v[i].store == Using;
      assert Empties(v) == {0};
    } else {
      forall i | 0 <= i < |v| && v[i].store == Empty ensures !Fits(v[i], size, need, false) {
        assert v[i] == EMPTY_SECTOR;
      }
    }
  }

  /** The collection ends after the first sector, the others are still dirty, and the record is refused. */
  lemma EndsEarly(size: nat, need: nat, d: nat)
    requires InRange(size, need, d)
    ensures var a := Littered(size, need, d);
            CollectionDue(a, size, need) && RoomMade(a, size, 0, need).secs == Shifted(size, need, d)
            && Refused(a, size, 0, need) && !AllClean(RoomMade(a, size, 0, need).secs)
  {
    hide Littered, Shifted, Collected, CollectionDue, NoChoice, AllClean, GcRun, GcTurn, LastSeen, FirstSector,
         FullSector, Quiescent, Shaped, Settled, Exact, Empties;
    var a := Littered(size, need, d);
    LitteredStore(size, need, d);
    LastSeenStep(a, 0, d);
    ShiftedRefuses(size, need, d);
    FirstTurnEnds(size, need, d);
    RoomMadeIs(a, size, 0, need);
    EndedStays(GcState(a, 0, d, false), size, need, 0, 1, |a|);
  }

  lemma FirstTurnEnds(size: nat, need: nat, d: nat)
    requires InRange(size, need, d)
    ensures var s := GcRun(GcState(Littered(size, need, d), 0, d, false), size, need, 0, 1);
            s.ended && s.secs == Shifted(size, need, d)
  {
    hide Littered, Shifted, Collected, FirstSector, FullSector, NoChoice;
    var a := Littered(size, need, d);
    var s := GcState(a, 0, d, false);
    SectorKinds(size, need);
    ShiftedFrom(size, need, d);
    ShiftedRefuses(size, need, d);
    GcRunNext(s, size, need, 0, 0);
  }

  ghost function Below(d: nat): (s: set<nat>)
    ensures |s| == d && forall i: nat :: i in s <==> i < d
  {
    if d == 0 then {} else Below(d - 1) + {d - 1}
  }

  lemma LitteredDirties(size: nat, need: nat, d: nat)
    requires InRange(size, need, d)
    ensures |Dirties(Littered(size, need, d))| == d
  {
    hide Littered, SectorShape, SectorFit, Fits;
    forall i | 0 <= i <= d ensures Littered(size, need, d)[i].dirt == (if i < d then Dirty else Clean) {
      LitteredSector(size, need, d, i);
    }
    assert Dirties(Littered(size, need, d)) == Below(d);
  }

  // ----- when a refusal means that nothing was left -----

  /** A store between operations with `d` dirty sectors, in which a record of `need` bytes makes a collection run. */
  ghost predicate FullStore(a: View, size: nat, oldest: nat, need: nat, d: nat) {
    && oldest < |a| && Shaped(a, size) && Settled(a) && Exact(a) && Quiescent(a)
    && CollectionDue(a, size, need) && |Dirties(a)| == d
  }

  /** Whenever such a record is refused, no sector is left that a collection could have emptied. */
  ghost predicate RefusalsAreFinal(size: nat, need: nat, d: nat) {
    forall a, oldest {:trigger FullStore(a, size, oldest, need, d)} ::
      FullStore(a, size, oldest, need, d) && Refused(a, size, oldest, need) ==>
        AllClean(RoomMade(a, size, oldest, need).secs)
  }

  /**
    That is so exactly for at most one dirty sector, or a record longer than any sector can hold. The
    shortest record with a name and a value takes 26 bytes.
  */
  lemma RefusalMeansNothingLeft(size: nat, need: nat, d: nat)
    requires 200 < size < U32_LIMIT && 26 <= need
    ensures RefusalsAreFinal(size, need, d) <==> d <= 1 || need + SECTOR_HDR >= size
  {
    hide Refused, RoomMade, AllClean, Littered, Settled, Exact, Shaped, Quiescent, CollectionDue, Dirties;
    if d <= 1 || need + SECTOR_HDR >= size {
      forall a, oldest | FullStore(a, size, oldest, need, d) ensures AllClean(RoomMade(a, size, oldest, need).secs) {
        FinalHere(a, size, oldest, need, d);
      }
    } else {
      var a := Littered(size, need, d);
      EndsEarly(size, need, d);
      LitteredStore(size, need, d);
      LitteredDirties(size, need, d);
      assert FullStore(a, size, 0, need, d);
    }
  }

  lemma FinalHere(a: View, size: nat, oldest: nat, need: nat, d: nat)
    requires FullStore(a, size, oldest, need, d) && (d <= 1 || need + SECTOR_HDR >= size)
    ensures AllClean(RoomMade(a, size, oldest, need).secs)
  {
    hide Settled, Exact, CollectionDue, AllClean, RoomMade, Empties, Dirties;
    forall i | 0 <= i < |a| ensures a[i].dirt in {Clean, Dirty} && a[i].End() >= SECTOR_HDR {
      assert RestSector(a[i], false) && SectorShape(a[i], size);
    }
    NothingLeft(a, size, oldest, need);
  }
}
