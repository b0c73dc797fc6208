/**
  How much room is left for recovery at every point of power loss: empty sectors against half-deleted
  records.
*/
module KvSpare {
  import opened Bytes
  import opened KvLayout
  import opened KvImage
  import opened KvWalk
  import opened KvView
  import opened KvModel
  import opened KvRest
  import opened KvRoom
  import opened KvCrash
  import opened KvRestart
  import opened KvCollect
  import opened KvRecovery

  /** Sectors in reserve beyond one for each half-deleted record. */
  ghost function Slack(a: View): int {
    |Reserve(a)| - |Halves(a)|
  }

  /** No half-deleted record outside `h`, and at least that many sectors to spare. */
  ghost predicate Spare(v: View, h: set<Pos>, slack: int) {
    Halves(v) <= h && Slack(v) >= slack
  }

  ghost predicate AllSpare(trace: seq<View>, from: nat, h: set<Pos>, slack: int) {
    forall t {:trigger trace[t]} :: from <= t < |trace| ==> Spare(trace[t], h, slack)
  }

  /** At most one sector less to spare than in `a`, and no new half-deleted record. */
  ghost predicate SpareKept(trace: seq<View>, from: nat, a: View) {
    AllSpare(trace, from, Halves(a), Slack(a) - 1)
  }

  // ----- traces -----

  lemma SpareChain(t0: seq<View>, t1: seq<View>, from: nat, h: set<Pos>, slack: int)
    requires from <= |t0| && AllSpare(t0, from, h, slack) && Extends(t0, t1) && AllSpare(t1, |t0|, h, slack)
    ensures AllSpare(t1, from, h, slack)
  {
    hide Spare;
    forall t | from <= t < |t1| ensures Spare(t1[t], h, slack) {
      if t < |t0| {
        assert t1[..|t0|][t] == t0[t];
      }
    }
  }

  lemma SpareWeaken(trace: seq<View>, from: nat, h: set<Pos>, slack: int, g: set<Pos>, less: int)
    requires AllSpare(trace, from, h, slack) && h <= g && less <= slack
    ensures AllSpare(trace, from, g, less)
  {
    hide Halves, Slack;
  }

  /** One step more, seen from an earlier store. */
  lemma SpareStep(t0: seq<View>, t1: seq<View>, from: nat, a: View, b: View)
    requires from <= |t0| && SpareKept(t0, from, a) && Progress(a, b) && Extends(t0, t1) && SpareKept(t1, |t0|, b)
    ensures SpareKept(t1, from, a)
  {
    hide LagKept, HalfStay, Halves, Reserve, At, AllSpare;
    HalvesShrink(a, b);
    SpareWeaken(t1, |t0|, Halves(b), Slack(b) - 1, Halves(a), Slack(a) - 1);
    SpareChain(t0, t1, from, Halves(a), Slack(a) - 1);
  }

  /** What recovery keeps at every write, over one step more. */
  lemma PassStep(t0: seq<View>, t1: seq<View>, t2: seq<View>, base: View, v: View, w: View)
    requires Extends(t0, t1) && AllSame(t1, |t0|, base) && SpareKept(t1, |t0|, base) && |t0| <= |t1|
    requires SameMap(base, v) && Progress(base, v) && (Resumable(base) ==> AllRestart(t1, |t0|, false))
    requires Extends(t1, t2) && AllSame(t2, |t1|, v) && SpareKept(t2, |t1|, v)
    requires SameMap(v, w) && Progress(v, w) && (Resumable(v) ==> AllRestart(t2, |t1|, false))
    ensures Extends(t0, t2) && AllSame(t2, |t0|, base) && SpareKept(t2, |t0|, base)
    ensures SameMap(base, w) && Progress(base, w) && (Resumable(base) ==> AllRestart(t2, |t0|, false))
    ensures (Placeable(base) ==> Placeable(v)) && (Resumable(base) ==> Resumable(v))
  {
    hide Extends, AllSame, SpareKept, SameMap, Progress, Resumable, AllRestart, Placeable;
    ProgressFit(base, v);
    SameMapTrans(base, v, w);
    AllSameChain(t1, t2, |t0|, base, v);
    ExtendsTrans(t0, t1, t2);
    SpareStep(t1, t2, |t0|, base, v);
    ProgressTrans(base, v, w);
    if Resumable(base) {
      RestartChain(t1, t2, |t0|, false);
    }
  }

  lemma KeptNone(trace: seq<View>, a: View)
    ensures SpareKept(trace, |trace|, a)
  {
  }

  // ----- what single writes leave -----

  lemma MarkedSpare(a: View, b: View)
    requires MarkedFrom(a, b)
    ensures Halves(b) == Halves(a) && Reserve(b) == Reserve(a)
  {
    hide MarkedFrom;
    MarkedHeaders(a, b);
    assert Reserve(b) == Reserve(a);
    forall p ensures p in Halves(b) <==> p in Halves(a) {
      HalvesIs(a, p);
      HalvesIs(b, p);
      if p.sec < |a| {
        MarkedRecord(a, b, p);
      }
    }
  }

  lemma MarkedRecord(a: View, b: View, p: Pos)
    requires MarkedFrom(a, b) && p.sec < |a|
    ensures IsRec(b, p.sec, p.idx) <==> IsRec(a, p.sec, p.idx)
    ensures RecAt(b, p).status == PreDelete && RecAt(b, p).Complete() && IsRec(a, p.sec, p.idx) <==>
              RecAt(a, p).status == PreDelete && RecAt(a, p).Complete() && IsRec(a, p.sec, p.idx)
  {
    MarkedFromSame(a, b, p.sec);
  }

  lemma MarksSpare(trace: seq<View>, from: nat, base: View, h: set<Pos>, slack: int)
    requires OnlyMarks(trace, from, base) && Spare(base, h, slack)
    ensures AllSpare(trace, from, h, slack)
  {
    hide MarkedFrom, Halves, Reserve;
    forall t | from <= t < |trace| ensures Spare(trace[t], h, slack) {
      MarkedSpare(base, trace[t]);
    }
  }

  lemma RestatedSpare(a: View, p: Pos, st: KvStatus)
    requires IsRec(a, p.sec, p.idx) && st in {PreDelete, Deleted} && RecAt(a, p).Complete()
    ensures var d := DeletedView(a, p.sec, p.idx, st); var m := Restated(a, p, st);
            && Halves(m) == Halves(d) == (if st == PreDelete then Halves(a) + {p} else Halves(a) - {p})
            && Reserve(m) == Reserve(d) == Reserve(a)
  {
    var d, m := DeletedView(a, p.sec, p.idx, st), Restated(a, p, st);
    assert forall i :: 0 <= i < |a| ==> m[i].store == d[i].store == a[i].store && m[i].recs == d[i].recs;
    forall q ensures q in Halves(m) <==> q in Halves(d) {
      HalvesIs(m, q);
      HalvesIs(d, q);
    }
    forall q ensures q in Halves(m) <==> if q == p then st == PreDelete else q in Halves(a) {
      HalvesIs(m, q);
      HalvesIs(a, q);
    }
  }

  /** Half-deleting or deleting a record, with its points of power loss. */
  lemma DeleteSpare(t0: seq<View>, t1: seq<View>, a: View, p: Pos, st: KvStatus, h: set<Pos>, slack: int)
    requires IsRec(a, p.sec, p.idx) && st in {PreDelete, Deleted} && RecAt(a, p).Complete()
    requires t1 == t0 + [Restated(a, p, st)]
                 + (if a[p.sec].dirt == Clean then [DeletedView(a, p.sec, p.idx, st)] else [])
    requires if st == PreDelete then Halves(a) + {p} <= h && |Reserve(a)| - |Halves(a)| - 1 >= slack
             else Halves(a) <= h && Slack(a) >= slack
    ensures AllSpare(t1, |t0|, h, slack) && Spare(DeletedView(a, p.sec, p.idx, st), h, slack)
  {
    hide Restated, DeletedView, Halves, Reserve;
    var m, d := Restated(a, p, st), DeletedView(a, p.sec, p.idx, st);
    RestatedSpare(a, p, st);
    Subset(Halves(a) - {p}, Halves(a));
    assert t1[|t0|] == m && (|t1| > |t0| + 1 ==> t1[|t0| + 1] == d);
  }

  lemma StageSpare(a: View, v: View, sec: nat, key: Key, value: Value)
    requires sec < |a| == |v| && v == a[sec := v[sec]] && Stage(a[sec], v[sec], key, value)
    ensures Halves(v) == Halves(a) && Reserve(a) - {sec} <= Reserve(v) <= Reserve(a)
    ensures a[sec].store == Using ==> Reserve(v) == Reserve(a)
    ensures |Reserve(v)| + 1 >= |Reserve(a)|
  {
    hide RecShape;
    StageParts(a[sec], v[sec], key, value);
    assert forall i :: 0 <= i < |a| && i != sec ==> v[i] == a[i];
    forall q ensures q in Halves(v) <==> q in Halves(a) {
      HalvesIs(v, q);
      HalvesIs(a, q);
    }
    Subset(Reserve(a) - {sec}, Reserve(v));
    assert Reserve(a) <= (Reserve(a) - {sec}) + {sec};
  }

  /** One record more, not half-deleted, in a sector in use. */
  lemma StageParts(s: Sector, t: Sector, key: Key, value: Value)
    requires Stage(s, t, key, value)
    ensures t.store == Using && |t.recs| == |s.recs| + 1 && t.recs[..|s.recs|] == s.recs
    ensures t.recs[|s.recs|].status != PreDelete
    ensures forall i :: 0 <= i < |s.recs| ==> t.recs[i] == s.recs[i]
  {
  }

  lemma StagesSpare(trace: seq<View>, from: nat, a: View, sec: nat, key: Key, value: Value, h: set<Pos>, slack: int)
    requires Stages(trace, from, a, sec, key, value) && Halves(a) <= h && Slack(a) - 1 >= slack
    ensures AllSpare(trace, from, h, slack)
  {
    hide Stage, Halves, Reserve;
    forall t | from <= t < |trace| ensures Spare(trace[t], h, slack) {
      StageSpare(a, trace[t], sec, key, value);
    }
  }

  /** A faulty sector is erased and formatted. */
  lemma FormatSpare(t0: seq<View>, t1: seq<View>, v: View, sec: nat)
    requires sec < |v| && v[sec].recs == [] && v[sec].store in {StoreUnused, Empty}
    requires t1 == t0 + [v[sec := ERASED_SECTOR], v[sec := EMPTY_SECTOR]]
    ensures SpareKept(t1, |t0|, v) && Extends(t0, t1)
  {
    hide Halves, Reserve;
    BlankSpare(v, sec, ERASED_SECTOR);
    BlankSpare(v, sec, EMPTY_SECTOR);
    assert t1[|t0|] == v[sec := ERASED_SECTOR] && t1[|t0| + 1] == v[sec := EMPTY_SECTOR];
  }

  /** All that formatting one of the faulty sectors keeps. */
  lemma HeaderFormatted(t0: seq<View>, t1: seq<View>, t2: seq<View>, a: View, v: View, size: nat, sec: nat)
    requires Extends(t0, t1) && AllSame(t1, |t0|, a) && SpareKept(t1, |t0|, a)
    requires Bootable(a) && HalfFirm(a) ==> AllRestart(t1, |t0|, false)
    requires Sane(v) && SameMap(a, v) && Progress(a, v) && (Bootable(a) ==> Bootable(v))
    requires Shaped(v, size) && Settled(v) && Exact(v) && sec < |v| && v[sec].recs == [] && v[sec].store == StoreUnused
    requires t2 == t1 + [v[sec := ERASED_SECTOR], v[sec := EMPTY_SECTOR]]
    ensures var w := v[sec := EMPTY_SECTOR];
            && Sane(w) && SameMap(a, w) && Progress(a, w) && (Bootable(a) ==> Bootable(w)) && Pending(w) == Pending(v)
    ensures Extends(t0, t2) && AllSame(t2, |t0|, a) && SpareKept(t2, |t0|, a)
    ensures Bootable(a) && HalfFirm(a) ==> AllRestart(t2, |t0|, false)
  {
    hide Sane, SameMap, AllSame, Progress, Bootable, HalfFirm, AllRestart, SpareKept, Pending, Shaped, Settled, Exact;
    FormatErased(t0, t1, t2, a, v, size, sec);
    FormatSpare(t1, t2, v, sec);
    SpareStep(t1, t2, |t0|, a, v);
    ProgressFormat(v, sec);
    ProgressTrans(a, v, v[sec := EMPTY_SECTOR]);
    ProgressFit(a, v);
    if Bootable(a) {
      FormatBoots(t1, t2, v, sec);
      if HalfFirm(a) {
        RestartChain(t1, t2, |t0|, false);
      }
    }
  }

  lemma BlankSpare(v: View, sec: nat, s: Sector)
    requires sec < |v| && v[sec].recs == [] && v[sec].store in {StoreUnused, Empty}
    requires s in {ERASED_SECTOR, EMPTY_SECTOR}
    ensures Halves(v[sec := s]) == Halves(v) && Reserve(v[sec := s]) == Reserve(v)
  {
    var w := v[sec := s];
    forall q ensures q in Halves(w) <==> q in Halves(v) {
      HalvesIs(w, q);
      HalvesIs(v, q);
    }
  }

  lemma WipedSpare(trace: seq<View>, from: nat, a: View)
    requires AllWiped(trace, from, a) && forall i :: 0 <= i < |a| ==> a[i] == EMPTY_SECTOR
    ensures SpareKept(trace, from, a)
  {
    forall t | from <= t < |trace| ensures Spare(trace[t], Halves(a), Slack(a) - 1) {
      var v := trace[t];
      assert Wiped(a, v);
      assert forall i :: 0 <= i < |a| ==> v[i].recs == [] && v[i].store in {StoreUnused, Empty};
      assert Halves(v) == {} && Reserve(v) == Reserve(a);
    }
  }

  lemma ErrorSpare(t0: seq<View>, t1: seq<View>, m: View, sec: nat, j: nat)
    requires IsRec(m, sec, j) && m[sec].recs[j].status == PreWrite && Sane(m)
    requires t1 == t0 + [m[sec := SetRecStatus(m[sec], j, ErrHdr)]]
    ensures SpareKept(t1, |t0|, m)
  {
    hide Halves, Reserve, Sane, LagKept, HalfStay;
    var b := m[sec := SetRecStatus(m[sec], j, ErrHdr)];
    ProgressError(m, sec, j);
    HalvesShrink(m, b);
    assert t1[|t0|] == b;
  }

  // ----- what a boot sees of it -----

  lemma RereadSpare(v: View)
    ensures Halves(RereadAll(v)) == Halves(v) && Reserve(RereadAll(v)) == Reserve(v)
  {
    hide Reread;
    RereadRecords(v);
    forall i | 0 <= i < |v| ensures RereadAll(v)[i].store == v[i].store {
      StoreReread(v[i]);
    }
    forall p ensures p in Halves(RereadAll(v)) <==> p in Halves(v) {
      HalvesIs(RereadAll(v), p);
      HalvesIs(v, p);
    }
  }

  lemma StoreReread(s: Sector)
    ensures Reread(s).store == s.store
  {
  }

  /** A boot from there has room for all of them. */
  lemma SpareRoom(v: View, h: set<Pos>, slack: int)
    requires Spare(v, h, slack) && (slack >= 1 || (h == {} && Bootable(v)))
    ensures |Reserve(RereadAll(v))| > |Halves(RereadAll(v))|
  {
    hide Halves;
    RereadSpare(v);
    if h == {} && Bootable(v) {
      var i :| 0 <= i < |v| && v[i].store in {StoreUnused, Empty};
      assert i in Reserve(v);
      assert Halves(v) == {};
    }
  }

  lemma QuiescentSpare(a: View)
    requires Quiescent(a)
    ensures Halves(a) == {} && Reserve(a) == Empties(a)
  {
    forall i | 0 <= i < |a| ensures RestSector(a[i], false) {}
    forall p ensures p !in Halves(a) {
      HalvesIs(a, p);
    }
  }

  // ----- moving a half-deleted record -----

  lemma FinishSpare(t0: seq<View>, t1: seq<View>, t2: seq<View>, v: View, p: Pos, sec: nat, key: Key, value: Value)
    requires Extends(t0, t1) && Stages(t1, |t0|, v, sec, key, value) && IsRec(v, p.sec, p.idx) && RecAt(v, p).Complete()
    requires var w := v[sec := Appended(v[sec], key, value)];
             && IsRec(w, p.sec, p.idx) && RecAt(w, p).Complete()
             && t2 == t1 + [Restated(w, p, Deleted)]
                    + (if w[p.sec].dirt == Clean then [DeletedView(w, p.sec, p.idx, Deleted)] else [])
    ensures SpareKept(t2, |t0|, v)
  {
    hide Stage, Halves, Reserve, Restated, DeletedView, Appended, AllSpare;
    var w := v[sec := Appended(v[sec], key, value)];
    StagesSpare(t1, |t0|, v, sec, key, value, Halves(v), Slack(v) - 1);
    LastIsStage(v[sec], key, value);
    StageSpare(v, w, sec, key, value);
    DeleteSpare(t1, t2, w, p, Deleted, Halves(v), Slack(v) - 1);
    SpareChain(t1, t2, |t0|, Halves(v), Slack(v) - 1);
  }

  lemma GoneSpare(t0: seq<View>, t1: seq<View>, m: View, p: Pos)
    requires IsRec(m, p.sec, p.idx) && RecAt(m, p).Complete()
    requires t1 == t0 + [Restated(m, p, Deleted)]
                 + (if m[p.sec].dirt == Clean then [DeletedView(m, p.sec, p.idx, Deleted)] else [])
    ensures SpareKept(t1, |t0|, m)
  {
    hide Halves, Reserve, Restated, DeletedView;
    DeleteSpare(t0, t1, m, p, Deleted, Halves(m), Slack(m) - 1);
  }

  lemma ReadSpare(t0: seq<View>, t1: seq<View>, t2: seq<View>, a: View, m: View)
    requires MarkedFrom(a, m) && t1 == t0 + (if m == a then [] else [m]) && Extends(t1, t2) && SpareKept(t2, |t1|, m)
    ensures SpareKept(t2, |t0|, a)
  {
    hide MarkedFrom, SpareKept;
    assert OnlyMarks(t1, |t0|, a) && Extends(t0, t1);
    MarksThen(t0, t1, t2, a, m);
  }

  /** Marks first, then what follows. */
  lemma MarksThen(t0: seq<View>, t1: seq<View>, t2: seq<View>, a: View, m: View)
    requires Extends(t0, t1) && OnlyMarks(t1, |t0|, a) && MarkedFrom(a, m) && Extends(t1, t2)
    requires SpareKept(t2, |t1|, m)
    ensures SpareKept(t2, |t0|, a)
  {
    hide Halves, Reserve, MarkedFrom, AllSpare, OnlyMarks;
    MarkedSpare(a, m);
    MarksSpare(t1, |t0|, a, Halves(a), Slack(a) - 1);
    SpareChain(t1, t2, |t0|, Halves(a), Slack(a) - 1);
  }

  lemma MarksOnlySpare(t0: seq<View>, t1: seq<View>, a: View)
    requires Extends(t0, t1) && OnlyMarks(t1, |t0|, a)
    ensures SpareKept(t1, |t0|, a)
  {
    hide Halves, Reserve;
    MarksSpare(t1, |t0|, a, Halves(a), Slack(a) - 1);
  }

  // ----- setting and deleting a key -----

  /** Replacing the record at `p`: it is the only half-deleted one. */
  lemma ReplaceSpare(t0: seq<View>, t1: seq<View>, t2: seq<View>, t3: seq<View>, a: View, p: Pos, t: nat, key: Key,
                     value: Value)
    requires Quiescent(a) && IsRec(a, p.sec, p.idx) && RecAt(a, p).Complete() && t < |a|
    requires t1 == t0 + [Restated(a, p, PreDelete)] + (if a[p.sec].dirt == Clean then [HalfDeleted(a, p)] else [])
    requires var v := HalfDeleted(a, p);
             && Extends(t1, t2) && SpareKept(t2, |t1|, v) && t < |v|
             && var w := v[t := Appended(v[t], key, value)];
                && IsRec(w, p.sec, p.idx) && RecAt(w, p).Complete()
                && t3 == t2 + [Restated(w, p, Deleted)]
                       + (if w[p.sec].dirt == Clean then [DeletedView(w, p.sec, p.idx, Deleted)] else [])
    requires At(a, p, Write, key)
    ensures AllSpare(t3, |t0|, {p}, |Empties(a)| - 2) && HalfPoint(t3, |t0|, a, key)
  {
    hide At, Unique, HalfPoint, Quiescent, Halves, Reserve, Restated, DeletedView, Appended, AllSpare, Empties, Stage;
    var v, e := HalfDeleted(a, p), |Empties(a)|;
    var w := v[t := Appended(v[t], key, value)];
    QuiescentSpare(a);
    RestatedSpare(a, p, PreDelete);
    DeleteSpare(t0, t1, a, p, PreDelete, {p}, e - 2);
    SpareWeaken(t2, |t1|, Halves(v), Slack(v) - 1, {p}, e - 2);
    SpareChain(t1, t2, |t0|, {p}, e - 2);
    LastIsStage(v[t], key, value);
    StageSpare(v, w, t, key, value);
    DeleteSpare(t2, t3, w, p, Deleted, {p}, e - 2);
    SpareChain(t2, t3, |t0|, {p}, e - 2);
    assert t2[..|t1|] == t1 && Extends(t0, t3) && t3[|t0|] == t1[|t0|];
    assert Unique(a, Write) by { QuiescentUnique(a); }
    HalfPointLater(t0, t3, |t0|, a, key, p);
  }

  lemma QuiescentUnique(a: View)
    requires Quiescent(a)
    ensures Unique(a, Write)
  {
  }

  /** Room was found without a collection, the key was searched for, and then something was written. */
  lemma SetSpare(t0: seq<View>, t1: seq<View>, t2: seq<View>, t3: seq<View>, a: View, h: set<Pos>, slack: int)
    requires Quiescent(a) && Extends(t0, t1) && Extends(t1, t2) && Extends(t2, t3)
    requires OnlyMarks(t1, |t0|, a) && OnlyMarks(t2, |t1|, a) && AllSpare(t3, |t2|, h, slack) && slack <= |Empties(a)|
    ensures AllSpare(t3, |t0|, h, slack)
  {
    hide Quiescent, Halves, Reserve, Empties, AllSpare, OnlyMarks;
    QuiescentSpare(a);
    MarksSpare(t1, |t0|, a, h, slack);
    MarksSpare(t2, |t1|, a, h, slack);
    SpareChain(t1, t2, |t0|, h, slack);
    SpareChain(t2, t3, |t0|, h, slack);
  }

  lemma RefusedSpare(t0: seq<View>, t1: seq<View>, a: View, key: Key, value: Option<Value>)
    requires Quiescent(a) && Extends(t0, t1) && OnlyMarks(t1, |t0|, a) && value.Some?
    ensures SetSpares(t1, |t0|, a, key, value)
  {
    hide Quiescent, Halves, Reserve, Empties, AllSpare, OnlyMarks, Stored;
    QuiescentSpare(a);
    var p, e := Pos(0, 0), |Empties(a)|;
    MarksSpare(t1, |t0|, a, {}, e - 1);
    MarksSpare(t1, |t0|, a, {p}, e - 2);
  }

  lemma StoreSpare(trace: seq<View>, from: nat, a: View)
    requires Quiescent(a) && SpareKept(trace, from, a)
    ensures AllSpare(trace, from, {}, |Empties(a)| - 1)
  {
    hide Quiescent, Halves, Reserve, Empties, AllSpare;
    QuiescentSpare(a);
  }

  /** Deleting a key: nothing is ever half-deleted. */
  lemma DelSpare(t0: seq<View>, t1: seq<View>, t2: seq<View>, a: View, p: Pos)
    requires Quiescent(a) && Extends(t0, t1) && OnlyMarks(t1, |t0|, a)
    requires IsRec(a, p.sec, p.idx) && RecAt(a, p).Complete()
    requires t2 == t1 + [Restated(a, p, Deleted)]
                 + (if a[p.sec].dirt == Clean then [DeletedView(a, p.sec, p.idx, Deleted)] else [])
    ensures AllSpare(t2, |t0|, {}, |Empties(a)|)
  {
    hide Quiescent, Halves, Reserve, Empties, AllSpare, OnlyMarks, Restated, DeletedView;
    QuiescentSpare(a);
    MarksSpare(t1, |t0|, a, {}, |Empties(a)|);
    DeleteSpare(t1, t2, a, p, Deleted, {}, |Empties(a)|);
    SpareChain(t1, t2, |t0|, {}, |Empties(a)|);
  }

  /** What a set or delete leaves to spare, unless a collection is due. */
  ghost predicate SetSpares(trace: seq<View>, from: nat, a: View, key: Key, value: Option<Value>) {
    if value.None? then AllSpare(trace, from, {}, |Empties(a)|)
    else if Stored(a, key).None? then AllSpare(trace, from, {}, |Empties(a)| - 1)
    else exists p :: AllSpare(trace, from, {p}, |Empties(a)| - 2)
  }

  /** A boot has room for all if nothing is replaced, or three sectors are empty. */
  lemma SetRoom(trace: seq<View>, from: nat, a: View, key: Key, value: Option<Value>, t: nat)
    requires SetSpares(trace, from, a, key, value) && from <= t < |trace| && Bootable(trace[t])
    requires value.None? || Stored(a, key).None? || |Empties(a)| >= 3
    ensures |Reserve(RereadAll(trace[t]))| > |Halves(RereadAll(trace[t]))|
  {
    hide Stored, Bootable, Empties, RereadAll, Halves, Reserve, Slack;
    if value.None? {
      SpareRoom(trace[t], {}, |Empties(a)|);
    } else if Stored(a, key).None? {
      SpareRoom(trace[t], {}, |Empties(a)| - 1);
    } else {
      var p :| AllSpare(trace, from, {p}, |Empties(a)| - 2);
      SpareRoom(trace[t], {p}, |Empties(a)| - 2);
    }
  }

  lemma RestRoom(a: View)
    requires Quiescent(a) && Bootable(a)
    ensures |Reserve(RereadAll(a))| > |Halves(RereadAll(a))|
  {
    hide Quiescent, Bootable, RereadAll, Halves, Reserve;
    QuiescentSpare(a);
    SpareRoom(a, {}, Slack(a));
  }

  lemma KeptRoom(trace: seq<View>, a: View, t: nat)
    requires SpareKept(trace, 0, a) && t < |trace|
    ensures |Reserve(a)| > |Halves(a)| + 1 ==> |Reserve(RereadAll(trace[t]))| > |Halves(RereadAll(trace[t]))|
    ensures Halves(RereadAll(trace[t])) <= Halves(a)
  {
    hide RereadAll, Halves, Reserve;
    RereadSpare(trace[t]);
    if |Reserve(a)| > |Halves(a)| + 1 {
      SpareRoom(trace[t], Halves(a), Slack(a) - 1);
    }
  }
}
