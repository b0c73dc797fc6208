/**
  The store between operations: records are live, deleted or marked bad, nothing is half done.
  `Resting` also covers the sector a collection is working on. The lemmas say what each step of
  an operation makes of a resting store, for the map and for every point of power loss.
*/
module KvRest {
  import opened Bytes
  import opened NorFlash
  import opened KvLayout
  import opened KvImage
  import opened KvWalk
  import opened KvView
  import opened KvModel

  predicate AtRest(r: Rec) {
    r.status in {Write, Deleted, ErrHdr} || !Visible(r)
  }

  /** `gc` allows the mark of a sector under collection. */
  predicate RestSector(s: Sector, gc: bool) {
    && s.store in {Empty, Using} && (s.dirt in {Clean, Dirty} || (gc && s.dirt == Gc))
    && forall i :: 0 <= i < |s.recs| ==> AtRest(s.recs[i])
  }

  /** At most sector `gc` is under collection. */
  ghost predicate Resting(secs: View, gc: int) {
    (forall i :: 0 <= i < |secs| ==> RestSector(secs[i], i == gc)) && Unique(secs, Write)
  }

  /** Between operations at least one sector is empty, the reserve of the next collection. */
  ghost predicate Quiescent(secs: View) {
    Resting(secs, -1) && Empties(secs) != {}
  }

  /** The sectors of one store status. */
  ghost function WithStore(secs: View, store: Store): set<nat> {
    set i | 0 <= i < |secs| && secs[i].store == store
  }

  ghost function Empties(secs: View): set<nat> {
    WithStore(secs, Empty)
  }

  // ----- every point of power loss -----

  ghost predicate Extends(a: seq<View>, b: seq<View>) {
    |a| <= |b| && b[..|a|] == a
  }

  /** Every view recorded since `from` is sane and recovers to the same map as `base`. */
  ghost predicate AllSame(trace: seq<View>, from: nat, base: View) {
    forall t {:trigger trace[t]} :: from <= t < |trace| ==> Sane(trace[t]) && SameMap(base, trace[t])
  }

  lemma ExtendsSelf(a: seq<View>)
    ensures Extends(a, a)
  {
  }

  lemma ExtendsLength(a: seq<View>, b: seq<View>)
    requires Extends(a, b)
    ensures |a| <= |b|
  {
  }

  lemma ExtendsTrans(a: seq<View>, b: seq<View>, c: seq<View>)
    requires Extends(a, b) && Extends(b, c)
    ensures Extends(a, c)
  {
    assert c[..|a|] == c[..|b|][..|a|];
  }

  lemma SameMapTrans(a: View, b: View, c: View)
    requires SameMap(a, b) && SameMap(b, c)
    ensures SameMap(a, c)
  {
    hide Recovered;
  }

  lemma AllSameNone(trace: seq<View>, base: View)
    ensures AllSame(trace, |trace|, base)
  {
  }

  lemma AllSameOne(t0: seq<View>, t1: seq<View>, from: nat, base: View, v: View)
    requires AllSame(t0, from, base) && from <= |t0| && t1 == t0 + [v] && Sane(v) && SameMap(base, v)
    ensures AllSame(t1, from, base) && Extends(t0, t1)
  {
    hide Sane, SameMap;
  }

  lemma AllSameChain(t0: seq<View>, t1: seq<View>, from: nat, base: View, v: View)
    requires Extends(t0, t1) && from <= |t0| && AllSame(t0, from, base) && SameMap(base, v) && AllSame(t1, |t0|, v)
    ensures AllSame(t1, from, base)
  {
    hide Sane, SameMap;
    forall t | from <= t < |t1| ensures Sane(t1[t]) && SameMap(base, t1[t]) {
      if t < |t0| {
        assert t1[..|t0|][t] == t0[t];
      } else {
        SameMapTrans(base, v, t1[t]);
      }
    }
  }

  // ----- what resting means for the map -----

  lemma RestingNoPreDelete(secs: View, gc: int)
    requires Resting(secs, gc)
    ensures Sane(secs) && forall k :: Lookup(secs, PreDelete, k) == None && Recovered(secs, k) == Stored(secs, k)
  {
    hide Lookup;
    forall p, k ensures !At(secs, p, PreDelete, k) {
      if IsRec(secs, p.sec, p.idx) {
        assert RestSector(secs[p.sec], p.sec == gc);
        assert AtRest(secs[p.sec].recs[p.idx]);
      }
    }
    forall k ensures Lookup(secs, PreDelete, k) == None {
      LookupNone(secs, PreDelete, k);
    }
  }

  lemma RestingMarked(secs: View, gc: int, size: nat, sec: nat)
    requires Resting(secs, gc) && Shaped(secs, size) && sec < |secs| && secs[sec].recs != []
    ensures Marked(secs[sec].recs[0]) == secs[sec].recs[0]
    ensures secs[sec].recs[0 := Marked(secs[sec].recs[0])] == secs[sec].recs
  {
    assert RestSector(secs[sec], sec == gc);
    assert AtRest(secs[sec].recs[0]);
    assert SectorShape(secs[sec], size);
    assert RecShape(secs[sec].recs[0]);
  }

  // ----- deleting -----

  /** What `del_kv` leaves is the old view with one record restated and perhaps a dirty mark. */
  lemma DeletedIsOne(secs: View, p: Pos, prior: KvStatus, st: KvStatus, key: Key)
    requires At(secs, p, prior, key)
    ensures IsRec(secs, p.sec, p.idx)
    ensures OneRestated(secs, DeletedView(secs, p.sec, p.idx, st), p, st, key)
    ensures OneRestated(secs, Restated(secs, p, st), p, st, key)
  {
    RestatedIsOne(secs, p, prior, st, key);
    var a, b := Restated(secs, p, st), DeletedView(secs, p.sec, p.idx, st);
    forall q, t, k ensures At(b, q, t, k) <==> At(a, q, t, k) {}
    forall q ensures ValueAt(b, q) == ValueAt(a, q) {}
  }

  lemma RestatedIs(secs: View, p: Pos, st: KvStatus)
    requires IsRec(secs, p.sec, p.idx)
    ensures Restated(secs, p, st) == secs[p.sec := SetRecStatus(secs[p.sec], p.idx, st)]
    ensures |DeletedView(secs, p.sec, p.idx, st)| == |secs|
  {
  }

  /** Nothing for a reader to mark. */
  ghost predicate NoMarks(secs: View) {
    forall i :: 0 <= i < |secs| && secs[i].recs != [] ==> Marked(secs[i].recs[0]) == secs[i].recs[0]
  }

  lemma RestingNoMarks(secs: View, gc: int, size: nat)
    requires Resting(secs, gc) && Shaped(secs, size)
    ensures NoMarks(secs)
  {
    hide RestSector, SectorShape;
    forall i | 0 <= i < |secs| && secs[i].recs != [] ensures Marked(secs[i].recs[0]) == secs[i].recs[0] {
      RestingMarked(secs, gc, size, i);
    }
  }

  lemma DeletedNoMarks(secs: View, sec: nat, i: nat, st: KvStatus)
    requires NoMarks(secs) && IsRec(secs, sec, i) && secs[sec].recs[i].Complete()
    ensures NoMarks(DeletedView(secs, sec, i, st))
  {
  }

  /** The points of power loss while `del_kv` runs, when the map survives it. */
  lemma DeleteTrace(t0: seq<View>, t1: seq<View>, from: nat, base: View, a: View, p: Pos, st: KvStatus)
    requires IsRec(a, p.sec, p.idx) && from <= |t0| && AllSame(t0, from, base)
    requires var b := DeletedView(a, p.sec, p.idx, st);
             t1 == t0 + [Restated(a, p, st)] + (if a[p.sec].dirt == Clean then [b] else [])
             && Sane(Restated(a, p, st)) && SameMap(base, Restated(a, p, st)) && Sane(b) && SameMap(base, b)
    ensures AllSame(t1, from, base) && Extends(t0, t1)
  {
    hide Sane, SameMap, Restated, DeletedView;
  }

  // ----- the steps of replacing a record, with their points of power loss -----

  ghost function HalfDeleted(a: View, p: Pos): View
    requires IsRec(a, p.sec, p.idx)
  {
    DeletedView(a, p.sec, p.idx, PreDelete)
  }

  /** The view with the record to be moved half-deleted. */
  ghost function Prepared(a: View, p: Pos, prior: KvStatus): View {
    if prior == Write && IsRec(a, p.sec, p.idx) then HalfDeleted(a, p) else a
  }

  lemma PreparedSame(a: View, p: Pos)
    ensures Prepared(a, p, PreDelete) == a
  {
  }

  /** The view after the half-deleted record `p` was copied to sector `t` and deleted. */
  ghost function CopiedView(v: View, p: Pos, t: nat): View
    requires t < |v| && IsRec(v, p.sec, p.idx)
  {
    DeletedView(v[t := Appended(v[t], RecAt(v, p).key, RecAt(v, p).value)], p.sec, p.idx, Deleted)
  }

  /**
    How the records of a store may change while record `p` is moved: `p` itself is deleted, others
    stay or get the error mark of a header-less record, new ones are live.
  */
  ghost predicate Settles(a: View, b: View, p: Pos) {
    && |a| == |b| && IsRec(a, p.sec, p.idx) && IsRec(b, p.sec, p.idx) && RecAt(b, p) == WithStatus(RecAt(a, p), Deleted)
    && OthersKept(a, b, p)
  }

  ghost predicate OthersKept(a: View, b: View, p: Pos) {
    forall q: Pos {:trigger RecAt(b, q)} :: IsRec(b, q.sec, q.idx) && q != p ==>
      if IsRec(a, q.sec, q.idx) then RecAt(b, q) in {RecAt(a, q), Marked(RecAt(a, q))} else RecAt(b, q).status == Write
  }

  lemma SameMapSelf(a: View)
    ensures SameMap(a, a)
  {
  }

  lemma ReportsStatus(kv: KvInfo, sec: nat, a: View, p: Pos)
    requires IsRec(a, p.sec, p.idx) && RecShape(RecAt(a, p)) && RecAt(a, p).Complete() && Reports(kv, sec, RecAt(a, p))
    ensures kv.status == RecAt(a, p).status && kv.crcOk && kv.start == Addr(sec, RecAt(a, p).off)
    ensures kv.len == RecAt(a, p).Len()
    ensures kv.name == RecAt(a, p).key
  {
    CompleteIsGood(RecAt(a, p));
  }

  /** First step: the old record still carries the map. */
  lemma PrepareStep(t0: seq<View>, t1: seq<View>, from: nat, base: View, a: View, p: Pos, key: Key)
    requires Sane(a) && At(a, p, Write, key) && Lookup(a, PreDelete, key) == None
    requires from <= |t0| && AllSame(t0, from, base) && SameMap(base, a) && IsRec(a, p.sec, p.idx)
    requires t1 == t0 + [Restated(a, p, PreDelete)] + (if a[p.sec].dirt == Clean then [HalfDeleted(a, p)] else [])
    ensures var b := HalfDeleted(a, p);
            && Sane(b) && SameMap(base, b) && At(b, p, PreDelete, key) && Stored(b, key) == None
            && (forall k ::
                  k != key ==> Stored(b, k) == Stored(a, k) && Lookup(b, PreDelete, k) == Lookup(a, PreDelete, k))
    ensures AllSame(t1, from, base) && Extends(t0, t1)
  {
    hide Sane, At, Lookup, Restated, DeletedView, OneRestated, SameMap, AllSame;
    DeletedIsOne(a, p, Write, PreDelete, key);
    PrepareDelete(a, Restated(a, p, PreDelete), p, key);
    PrepareDelete(a, HalfDeleted(a, p), p, key);
    SameMapTrans(base, a, HalfDeleted(a, p));
    SameMapTrans(base, a, Restated(a, p, PreDelete));
    DeleteTrace(t0, t1, from, base, a, p, PreDelete);
  }

  /** Last step: the new record is live, the old one goes. */
  lemma FinishStep(t0: seq<View>, t1: seq<View>, from: nat, base: View, a: View, p: Pos, key: Key)
    requires Sane(a) && At(a, p, PreDelete, key) && Stored(a, key).Some?
    requires from <= |t0| && AllSame(t0, from, base) && SameMap(base, a) && IsRec(a, p.sec, p.idx)
    requires t1 == t0 + [Restated(a, p, Deleted)]
                 + (if a[p.sec].dirt == Clean then [DeletedView(a, p.sec, p.idx, Deleted)] else [])
    ensures var b := DeletedView(a, p.sec, p.idx, Deleted);
            && Sane(b) && SameMap(base, b) && SameMap(a, b) && (forall k :: Stored(b, k) == Stored(a, k))
            && Lookup(b, PreDelete, key) == None
            && (forall k :: k != key ==> Lookup(b, PreDelete, k) == Lookup(a, PreDelete, k))
    ensures AllSame(t1, from, base) && Extends(t0, t1)
  {
    hide Sane, At, Lookup, Restated, DeletedView, OneRestated, SameMap, AllSame;
    DeletedIsOne(a, p, PreDelete, Deleted, key);
    FinishDelete(a, Restated(a, p, Deleted), p, key);
    FinishDelete(a, DeletedView(a, p.sec, p.idx, Deleted), p, key);
    SameMapTrans(base, a, DeletedView(a, p.sec, p.idx, Deleted));
    SameMapTrans(base, a, Restated(a, p, Deleted));
    DeleteTrace(t0, t1, from, base, a, p, Deleted);
  }

  /** Middle step of a move: a copy of the half-deleted record becomes live, the map stays. */
  lemma CopyStep(t0: seq<View>, t1: seq<View>, from: nat, base: View, a: View, sec: nat, key: Key, value: Value)
    requires Sane(a) && Stored(a, key) == None && Lookup(a, PreDelete, key) == Some(value)
    requires from <= |t0| && AllSame(t0, from, base) && SameMap(base, a) && Extends(t0, t1)
    requires Stages(t1, |t0|, a, sec, key, value)
    ensures sec < |a|
    ensures var b := a[sec := Appended(a[sec], key, value)];
            && Sane(b) && SameMap(base, b) && Stored(b, key) == Some(value)
            && (forall k :: k != key ==> Stored(b, k) == Stored(a, k))
            && (forall k :: Lookup(b, PreDelete, k) == Lookup(a, PreDelete, k))
    ensures AllSame(t1, from, base)
  {
    hide Sane, Lookup, AllSame, Stage, Appended;
    AddRecord(a, sec, Appended(a[sec], key, value), key, value) by { LastIsStage(a[sec], key, value); }
    assert AllSame(t1, |t0|, a) by {
      forall t | |t0| <= t < |t1| ensures Sane(t1[t]) && SameMap(a, t1[t]) {
        AddRecord(a, sec, t1[t][sec], key, value);
        assert t1[t] == a[sec := t1[t][sec]];
      }
      AllSameIs(t1, |t0|, a);
    }
    AllSameChain(t0, t1, from, base, a);
  }

  lemma AppendKeepsRec(v: View, p: Pos, t: nat, key: Key, value: Value)
    requires t < |v| && IsRec(v, p.sec, p.idx)
    ensures var w := v[t := Appended(v[t], key, value)]; IsRec(w, p.sec, p.idx) && RecAt(w, p) == RecAt(v, p)
  {
  }

  lemma AtIs(v: View, p: Pos, st: KvStatus, key: Key)
    requires IsRec(v, p.sec, p.idx) && RecAt(v, p).Complete() && RecAt(v, p).status == st && RecAt(v, p).key == key
    ensures At(v, p, st, key)
  {
  }

  lemma LastIsStage(s: Sector, key: Key, value: Value)
    ensures Stage(s, Appended(s, key, value), key, value)
  {
  }

  lemma AllSameIs(trace: seq<View>, from: nat, base: View)
    requires forall t :: from <= t < |trace| ==> Sane(trace[t]) && SameMap(base, trace[t])
    ensures AllSame(trace, from, base)
  {
    hide Sane, SameMap;
  }
}
